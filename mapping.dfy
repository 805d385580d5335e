/** The schema mapping: a Python `dict[str, list[str]]` from table name to
    column names. Python dictionaries remember insertion order, and the label
    projector depends on that order (`list(schema.keys()).index(...)`), so the
    mapping is a sequence of (key, value) pairs. */
module Mapping {
  import opened Wrappers
  import opened Text

  type Schema = seq<(string, seq<string>)>

  /** `list(m.keys())`. */
  function Keys(m: Schema): (ks: seq<string>)
    ensures |ks| == |m|
    ensures forall i :: 0 <= i < |m| ==> ks[i] == m[i].0
  {
    seq(|m|, i requires 0 <= i < |m| => m[i].0)
  }

  /** `list(m.keys()).index(k)`, None when `k not in m`. */
  function KeyIndex(m: Schema, k: string): Option<nat> {
    IndexOf(Keys(m), k)
  }

  /** `m[k]`, None when `k not in m`. */
  function Lookup(m: Schema, k: string): Option<seq<string>> {
    match KeyIndex(m, k)
    case None => None
    case Some(i) => Some(m[i].1)
  }

  /** What every Python dictionary satisfies: no key occurs twice. */
  predicate DistinctKeys(m: Schema) {
    forall i, j :: 0 <= i < j < |m| ==> m[i].0 != m[j].0
  }

  /** The first occurrence of a value is determined by the two facts IndexOf promises. */
  lemma FirstOccurrenceUnique(xs: seq<string>, x: string, i: nat, j: nat)
    requires i < |xs| && xs[i] == x && x !in xs[..i]
    requires j < |xs| && xs[j] == x && x !in xs[..j]
    ensures i == j
  {
  }

  /** Python's `m[k] = v`: an existing key keeps its position and takes the new
      value, a new key is added at the end, and every other key keeps its value. */
  function Put(m: Schema, k: string, v: seq<string>): (r: Schema)
    ensures Lookup(r, k) == Some(v)
    ensures forall k' :: k' != k ==> Lookup(r, k') == Lookup(m, k')
    ensures Keys(r) == if k in Keys(m) then Keys(m) else Keys(m) + [k]
  {
    match KeyIndex(m, k)
    case Some(i) =>
      var r := m[i := (k, v)];
      assert Keys(r) == Keys(m);
      r
    case None =>
      var r := m + [(k, v)];
      assert Keys(r) == Keys(m) + [k];
      forall k' | k' != k ensures Lookup(r, k') == Lookup(m, k') {
        var a, b := KeyIndex(r, k'), KeyIndex(m, k');
        if b.Some? {
          assert Keys(r)[b.value] == k';
          assert Keys(r)[..b.value] == Keys(m)[..b.value];
          FirstOccurrenceUnique(Keys(r), k', a.value, b.value);
        }
      }
      r
  }

  /** Assigning into a dictionary keeps its keys distinct. */
  lemma PutKeepsDistinct(m: Schema, k: string, v: seq<string>)
    requires DistinctKeys(m)
    ensures DistinctKeys(Put(m, k, v))
  {
    var r := Put(m, k, v);
    forall i, j | 0 <= i < j < |r| ensures r[i].0 != r[j].0 {
      assert Keys(r)[i] == r[i].0 && Keys(r)[j] == r[j].0;
      if k !in Keys(m) && j == |m| {
        assert Keys(m)[i] == r[i].0;
      } else {
        assert Keys(m)[i] == r[i].0 && Keys(m)[j] == r[j].0;
      }
    }
  }
}
