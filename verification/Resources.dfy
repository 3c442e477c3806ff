/** What slices hold besides bytes: drain trackers and a memory charge. */
module Resources {
  type Tracker = nat

  type Account = nat

  /** Records the calls that leave the buffer code: tracker calls, `charge` and `credit`. */
  class ResourceLog {
    var fired: seq<Tracker>
    var balance: map<Account, int>

    constructor ()
      ensures fired == [] && balance == map[]
    {
      fired := [];
      balance := map[];
    }

    /** Charges minus credits of an account so far. */
    function Net(a: Account): int
      reads this
    {
      if a in balance then balance[a] else 0
    }

    method Fire(t: Tracker)
      modifies this`fired
      ensures fired == old(fired) + [t]
    {
      fired := fired + [t];
    }

    method Charge(a: Account, amount: nat)
      modifies this`balance
      ensures forall b :: Net(b) == old(Net(b)) + if b == a then amount else 0
    {
      balance := balance[a := Net(a) + amount];
    }

    method Credit(a: Account, amount: nat)
      modifies this`balance
      ensures forall b :: Net(b) == old(Net(b)) - if b == a then amount else 0
    {
      balance := balance[a := Net(a) - amount];
    }
  }
}
