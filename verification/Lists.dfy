/** What several modules say about lists. */
module Lists {
  predicate Distinct<T(==)>(xs: seq<T>) {
    forall i, j | 0 <= i < j < |xs| :: xs[i] != xs[j]
  }

  function SetOf<T(==)>(xs: seq<T>): set<T> {
    set x | x in xs
  }

  /** The elements at the given places. */
  function Picks<T>(xs: seq<T>, places: seq<nat>): (r: seq<T>)
    requires forall j | 0 <= j < |places| :: places[j] < |xs|
    ensures |r| == |places| && forall j | 0 <= j < |r| :: r[j] == xs[places[j]]
  {
    seq(|places|, j requires 0 <= j < |places| => xs[places[j]])
  }

  /** The same places when an element is put in front. */
  function Shifted(places: seq<nat>): (r: seq<nat>)
    ensures |r| == |places| && forall j | 0 <= j < |r| :: r[j] == places[j] + 1
  {
    seq(|places|, j requires 0 <= j < |places| => places[j] + 1)
  }

  lemma ShiftedPlace(places: seq<nat>, p: nat)
    ensures p in Shifted(places) <==> p > 0 && p - 1 in places
  {
    if p > 0 && p - 1 in places {
      var j :| 0 <= j < |places| && places[j] == p - 1;
      assert Shifted(places)[j] == p;
    }
  }

  lemma FrontStaysIncreasing(places: seq<nat>)
    requires forall j, l | 0 <= j < l < |places| :: places[j] < places[l]
    ensures var all := [0] + Shifted(places); forall j, l | 0 <= j < l < |all| :: all[j] < all[l]
  {
    var all := [0] + Shifted(places);
    forall j, l | 0 <= j < l < |all| ensures all[j] < all[l] {
      assert all[l] == places[l - 1] + 1;
      if j > 0 {
        assert all[j] == places[j - 1] + 1;
      }
    }
  }
}
