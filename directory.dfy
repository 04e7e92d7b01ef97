/**
 * The station directory: the table of (station name, telegraph code) pairs the
 * viewer imports, taken as its items in insertion order, and the code-to-name
 * table the row generator builds from it by swapping keys and values.
 */
module Directory {

  /** The items of the `stations` dictionary, in iteration order: (name, code). */
  type Items = seq<(string, string)>

  /** `dict(pairs)`: a key that occurs twice keeps the value of its later pair. */
  function DictOf(pairs: Items): (d: map<string, string>)
    ensures forall k :: k in d <==> exists i :: 0 <= i < |pairs| && pairs[i].0 == k
    decreases |pairs|
  {
    if pairs == [] then map[]
    else
      var last := pairs[|pairs| - 1];
      var d' := DictOf(pairs[..|pairs| - 1]);
      assert forall i :: 0 <= i < |pairs| - 1 ==> pairs[..|pairs| - 1][i] == pairs[i];
      d'[last.0 := last.1]
  }

  /** The pairs with key and value exchanged (`zip(values, keys)`). */
  function Swapped(items: Items): (r: Items)
    ensures |r| == |items|
    ensures forall i :: 0 <= i < |items| ==> r[i] == (items[i].1, items[i].0)
  {
    seq(|items|, i requires 0 <= i < |items| => (items[i].1, items[i].0))
  }

  /** The station table as the dictionary name -> code. */
  function Forward(items: Items): map<string, string> {
    DictOf(items)
  }

  /** `dict(zip(stations.values(), stations.keys()))`: the table code -> name. */
  function Invert(items: Items): (re: map<string, string>)
    ensures forall c :: c in re <==> exists i :: 0 <= i < |items| && items[i].1 == c
  {
    DictOf(Swapped(items))
  }

  /** A dictionary built from pairs maps a key to the value of the last pair carrying it. */
  lemma {:induction false} DictOfLastWins(pairs: Items, j: nat)
    requires j < |pairs|
    requires forall k :: j < k < |pairs| ==> pairs[k].0 != pairs[j].0
    ensures pairs[j].0 in DictOf(pairs) && DictOf(pairs)[pairs[j].0] == pairs[j].1
    decreases |pairs|
  {
    if j < |pairs| - 1 {
      var init := pairs[..|pairs| - 1];
      DictOfLastWins(init, j);
    }
  }

  /** When two names share a code, the inverted table keeps the later name. */
  lemma InvertLastWins(items: Items, j: nat)
    requires j < |items|
    requires forall k :: j < k < |items| ==> items[k].1 != items[j].1
    ensures items[j].1 in Invert(items) && Invert(items)[items[j].1] == items[j].0
  {
    DictOfLastWins(Swapped(items), j);
  }

  /** No two items share a name (true of every dictionary's items). */
  ghost predicate DistinctNames(items: Items) {
    forall i, j :: 0 <= i < j < |items| ==> items[i].0 != items[j].0
  }

  /** No two names share a code. */
  ghost predicate DistinctCodes(items: Items) {
    forall i, j :: 0 <= i < j < |items| ==> items[i].1 != items[j].1
  }

  /** With unique names and codes, resolving a name and then its code gives back the name. */
  lemma ResolveRoundTrip(items: Items, name: string)
    requires DistinctNames(items) && DistinctCodes(items)
    requires name in Forward(items)
    ensures Forward(items)[name] in Invert(items)
    ensures Invert(items)[Forward(items)[name]] == name
  {
    var i :| 0 <= i < |items| && items[i].0 == name;
    DictOfLastWins(items, i);
    InvertLastWins(items, i);
  }
}
