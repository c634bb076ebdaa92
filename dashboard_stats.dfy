/** The vehicle status tally that the admin dashboard shows: one count per
    known status and the total number of vehicles. */
module DashboardStats {

  /** A vehicle record; the tally reads only `status`, compared exactly. */
  datatype Vehicle = Vehicle(id: int, vehicleNo: string, vehicleType: string, driverName: string,
                             contactNo: string, capacity: string, status: string)

  datatype Stats = Stats(pending: nat, ready: nat, out: nat, active: nat, maintenance: nat, total: nat)

  /** The five statuses the dashboard counts. */
  const KnownStatuses: set<string> := {"pending", "ready", "out", "active", "maintenance"}

  /** `vehicles.filter(v => v.status === s)`. The membership clause says which
      vehicles are kept; `WithStatusConcat` adds that order and repetitions are kept. */
  function WithStatus(vehicles: seq<Vehicle>, s: string): (r: seq<Vehicle>)
    ensures |r| <= |vehicles|
    ensures forall v :: v in r <==> v in vehicles && v.status == s
  {
    if |vehicles| == 0 then []
    else if vehicles[0].status == s then [vehicles[0]] + WithStatus(vehicles[1..], s)
    else WithStatus(vehicles[1..], s)
  }

  /** `vehicles.filter(v => v.status === s).length`: at most the number of vehicles. */
  function CountStatus(vehicles: seq<Vehicle>, s: string): (n: nat)
    ensures n <= |vehicles|
  {
    |WithStatus(vehicles, s)|
  }

  /** A count is zero exactly when no vehicle has that status. */
  lemma CountZeroIff(vehicles: seq<Vehicle>, s: string)
    ensures CountStatus(vehicles, s) == 0 <==> forall i :: 0 <= i < |vehicles| ==> vehicles[i].status != s
  {
    var r := WithStatus(vehicles, s);
    assert |r| > 0 ==> r[0] in r;
    assert forall i :: 0 <= i < |vehicles| && vehicles[i].status == s ==> vehicles[i] in r;
  }

  /** The `stats` object of the admin dashboard. */
  function Tally(vehicles: seq<Vehicle>): (st: Stats)
    ensures st.total == |vehicles|
    ensures st.pending <= st.total && st.ready <= st.total && st.out <= st.total
    ensures st.active <= st.total && st.maintenance <= st.total
  {
    Stats(CountStatus(vehicles, "pending"), CountStatus(vehicles, "ready"),
          CountStatus(vehicles, "out"), CountStatus(vehicles, "active"),
          CountStatus(vehicles, "maintenance"), |vehicles|)
  }

  /** The five counts added up. */
  function CountedSum(st: Stats): nat
  {
    st.pending + st.ready + st.out + st.active + st.maintenance
  }

  /** The statuses of the vehicles, in list order. */
  function Statuses(vehicles: seq<Vehicle>): seq<string>
  {
    seq(|vehicles|, i requires 0 <= i < |vehicles| => vehicles[i].status)
  }

  /** Each count is the number of occurrences of its status among all statuses. */
  lemma {:induction false} CountIsMultiplicity(vehicles: seq<Vehicle>, s: string)
    ensures CountStatus(vehicles, s) == multiset(Statuses(vehicles))[s]
  {
    if |vehicles| > 0 {
      CountIsMultiplicity(vehicles[1..], s);
      assert Statuses(vehicles) == [vehicles[0].status] + Statuses(vehicles[1..]);
    }
  }

  /** Each field of the dashboard's `stats` is the number of occurrences of its
      status among the vehicles' statuses. */
  lemma TallyCounts(vehicles: seq<Vehicle>)
    ensures var st := Tally(vehicles);
      && st.pending == multiset(Statuses(vehicles))["pending"]
      && st.ready == multiset(Statuses(vehicles))["ready"]
      && st.out == multiset(Statuses(vehicles))["out"]
      && st.active == multiset(Statuses(vehicles))["active"]
      && st.maintenance == multiset(Statuses(vehicles))["maintenance"]
  {
    CountIsMultiplicity(vehicles, "pending");
    CountIsMultiplicity(vehicles, "ready");
    CountIsMultiplicity(vehicles, "out");
    CountIsMultiplicity(vehicles, "active");
    CountIsMultiplicity(vehicles, "maintenance");
  }

  /** Filtering a concatenation filters each part. */
  lemma {:induction false} WithStatusConcat(a: seq<Vehicle>, b: seq<Vehicle>, s: string)
    ensures WithStatus(a + b, s) == WithStatus(a, s) + WithStatus(b, s)
  {
    if |a| == 0 {
      assert a + b == b;
    } else {
      assert (a + b)[0] == a[0];
      assert (a + b)[1..] == a[1..] + b;
      WithStatusConcat(a[1..], b, s);
    }
  }

  /** A count does not depend on the order of the vehicle list. */
  lemma {:induction false} CountIgnoresOrder(vehicles: seq<Vehicle>, others: seq<Vehicle>, s: string)
    requires multiset(vehicles) == multiset(others)
    ensures CountStatus(vehicles, s) == CountStatus(others, s)
    decreases |vehicles|
  {
    if |vehicles| == 0 {
      assert |others| == |multiset(others)| == 0;
    } else {
      var v := vehicles[0];
      assert vehicles == [v] + vehicles[1..];
      assert v in multiset(others);
      var k :| 0 <= k < |others| && others[k] == v;
      var rest := others[..k] + others[k + 1..];
      assert others == others[..k] + ([v] + others[k + 1..]);
      assert multiset(vehicles[1..]) == multiset(rest) by {
        assert multiset(vehicles) == multiset{v} + multiset(vehicles[1..]);
        assert multiset(others) == multiset(others[..k]) + multiset{v} + multiset(others[k + 1..]);
        assert multiset(rest) == multiset(others[..k]) + multiset(others[k + 1..]);
        assert multiset(vehicles[1..]) == multiset(vehicles) - multiset{v};
        assert multiset(rest) == multiset(others) - multiset{v};
      }
      CountIgnoresOrder(vehicles[1..], rest, s);
      WithStatusConcat([v], vehicles[1..], s);
      WithStatusConcat(others[..k], [v] + others[k + 1..], s);
      WithStatusConcat([v], others[k + 1..], s);
      WithStatusConcat(others[..k], others[k + 1..], s);
    }
  }

  /** The whole tally does not depend on the order of the vehicle list. */
  lemma TallyIgnoresOrder(vehicles: seq<Vehicle>, others: seq<Vehicle>)
    requires multiset(vehicles) == multiset(others)
    ensures Tally(vehicles) == Tally(others)
  {
    CountIgnoresOrder(vehicles, others, "pending");
    CountIgnoresOrder(vehicles, others, "ready");
    CountIgnoresOrder(vehicles, others, "out");
    CountIgnoresOrder(vehicles, others, "active");
    CountIgnoresOrder(vehicles, others, "maintenance");
    assert |vehicles| == |multiset(vehicles)| == |multiset(others)| == |others|;
  }

  /** The five filters are disjoint, so their counts add up to at most the
      total, with equality exactly when every status is one of the five. */
  lemma {:induction false} TallySum(vehicles: seq<Vehicle>)
    ensures CountedSum(Tally(vehicles)) <= Tally(vehicles).total
    ensures CountedSum(Tally(vehicles)) == Tally(vehicles).total
        <==> forall i :: 0 <= i < |vehicles| ==> vehicles[i].status in KnownStatuses
  {
    if |vehicles| > 0 {
      var rest := vehicles[1..];
      TallySum(rest);
      assert forall i :: 1 <= i < |vehicles| ==> vehicles[i] == rest[i - 1];
      assert CountedSum(Tally(vehicles))
          == CountedSum(Tally(rest)) + (if vehicles[0].status in KnownStatuses then 1 else 0);
    }
  }
}
