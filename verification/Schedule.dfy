/**
 A parallel loop, as any interleaving of its threads: place[r] is how far thread r is.
 */
module Schedule {
  /** The iterations the threads have left. */
  ghost function Remaining(place: seq<nat>, n: nat): nat
    requires forall r :: 0 <= r < |place| ==> place[r] <= n
  {
    if place == [] then 0 else n - place[0] + Remaining(place[1..], n)
  }

  lemma {:induction false} RemainingDrops(place: seq<nat>, n: nat, r: nat)
    requires forall r :: 0 <= r < |place| ==> place[r] <= n
    requires r < |place| && place[r] < n
    ensures Remaining(place[r := place[r] + 1], n) < Remaining(place, n)
  {
    if r == 0 {
      assert place[0 := place[0] + 1][1..] == place[1..];
    } else {
      assert place[r := place[r] + 1][1..] == place[1..][r - 1 := place[r] + 1];
      RemainingDrops(place[1..], n, r - 1);
    }
  }
}
