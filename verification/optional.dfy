/** An optional value: the model of a null `shared_ptr` or of a quantity C++ leaves undefined. */
module Optional {

  datatype Option<+T> = None | Some(value: T)

  /** The present values of `rs`, in order: what a loop that keeps only its successes writes out. */
  function Somes<T>(rs: seq<Option<T>>): seq<T>
  {
    if |rs| == 0 then []
    else if rs[0].Some? then [rs[0].value] + Somes(rs[1..])
    else Somes(rs[1..])
  }

  /** The positions of the present entries of `rs`, in increasing order. */
  function SomeIndices<T>(rs: seq<Option<T>>): seq<int>
  {
    if |rs| == 0 then []
    else if rs[0].Some? then [0] + Shift(SomeIndices(rs[1..]))
    else Shift(SomeIndices(rs[1..]))
  }

  /** Every index one further on. */
  function Shift(idx: seq<int>): (r: seq<int>)
    ensures |r| == |idx| && forall j :: 0 <= j < |idx| ==> r[j] == idx[j] + 1
  {
    seq(|idx|, j requires 0 <= j < |idx| => idx[j] + 1)
  }

  /**
   * `out` lists, in order, the values of exactly the present entries of
   * `rs`: output `j` is the value of entry `idx[j]`, the indices increase,
   * and every present entry is among them.
   */
  ghost predicate KeptInOrder<T>(rs: seq<Option<T>>, idx: seq<int>, out: seq<T>)
  {
    && |idx| == |out|
    && (forall j :: 0 <= j < |idx| ==> 0 <= idx[j] < |rs| && rs[idx[j]] == Some(out[j]))
    && (forall j, k :: 0 <= j < k < |idx| ==> idx[j] < idx[k])
    && (forall i :: 0 <= i < |rs| && rs[i].Some? ==> i in idx)
  }

  /** `Somes` keeps every present value, each once, and nothing else, in order: `SomeIndices` says where each came from. */
  lemma {:induction false} SomesKeepsOrder<T>(rs: seq<Option<T>>)
    ensures KeptInOrder(rs, SomeIndices(rs), Somes(rs))
  {
    if |rs| > 0 {
      SomesKeepsOrder(rs[1..]);
      var idx, rest := SomeIndices(rs[1..]), Somes(rs[1..]);
      ShiftKept(rs, idx, rest);
      ShiftCovers(rs, idx, rest);
      if rs[0].Some? {
        ConsKept(rs, Shift(idx), rest);
      } else {
        SkipKept(rs, Shift(idx), rest);
      }
    }
  }

  /** Moving the indices past a new first entry keeps them increasing and pointing at the same values. */
  lemma ShiftKept<T>(rs: seq<Option<T>>, idx: seq<int>, out: seq<T>)
    requires |rs| > 0 && KeptInOrder(rs[1..], idx, out)
    ensures |Shift(idx)| == |out|
    ensures forall j :: 0 <= j < |idx| ==> 1 <= Shift(idx)[j] < |rs| && rs[Shift(idx)[j]] == Some(out[j])
    ensures forall j, k :: 0 <= j < k < |idx| ==> Shift(idx)[j] < Shift(idx)[k]
  {
    var sh := Shift(idx);
    forall j | 0 <= j < |idx|
      ensures 1 <= sh[j] < |rs| && rs[sh[j]] == Some(out[j])
    {
      assert rs[sh[j]] == rs[1..][idx[j]];
    }
  }

  /** Every present entry after the first is among the shifted indices. */
  lemma ShiftCovers<T>(rs: seq<Option<T>>, idx: seq<int>, out: seq<T>)
    requires |rs| > 0 && KeptInOrder(rs[1..], idx, out)
    ensures forall i :: 1 <= i < |rs| && rs[i].Some? ==> i in Shift(idx)
  {
    var sh := Shift(idx);
    forall i | 1 <= i < |rs| && rs[i].Some?
      ensures i in sh
    {
      assert rs[1..][i - 1] == rs[i];
      var j :| 0 <= j < |idx| && idx[j] == i - 1;
      assert sh[j] == i;
    }
  }

  /** A missing first entry adds nothing: the described rest describes the whole list. */
  lemma SkipKept<T>(rs: seq<Option<T>>, sh: seq<int>, out: seq<T>)
    requires |rs| > 0 && rs[0].None? && |sh| == |out|
    requires forall j :: 0 <= j < |sh| ==> 1 <= sh[j] < |rs| && rs[sh[j]] == Some(out[j])
    requires forall j, k :: 0 <= j < k < |sh| ==> sh[j] < sh[k]
    requires forall i :: 1 <= i < |rs| && rs[i].Some? ==> i in sh
    ensures KeptInOrder(rs, sh, out)
  {
  }

  /** A present first entry, put in front of the described rest. */
  lemma ConsKept<T>(rs: seq<Option<T>>, sh: seq<int>, out: seq<T>)
    requires |rs| > 0 && rs[0].Some? && |sh| == |out|
    requires forall j :: 0 <= j < |sh| ==> 1 <= sh[j] < |rs| && rs[sh[j]] == Some(out[j])
    requires forall j, k :: 0 <= j < k < |sh| ==> sh[j] < sh[k]
    requires forall i :: 1 <= i < |rs| && rs[i].Some? ==> i in sh
    ensures KeptInOrder(rs, [0] + sh, [rs[0].value] + out)
  {
    var idx, vals := [0] + sh, [rs[0].value] + out;
    forall j | 0 <= j < |idx|
      ensures 0 <= idx[j] < |rs| && rs[idx[j]] == Some(vals[j])
    {
      if j > 0 {
        assert idx[j] == sh[j - 1] && vals[j] == out[j - 1];
      }
    }
    forall j, k | 0 <= j < k < |idx|
      ensures idx[j] < idx[k]
    {
      assert idx[k] == sh[k - 1];
      if j > 0 {
        assert idx[j] == sh[j - 1];
      }
    }
    forall i | 0 <= i < |rs| && rs[i].Some?
      ensures i in idx
    {
      if i > 0 {
        var j :| 0 <= j < |sh| && sh[j] == i;
        assert idx[j + 1] == i;
      }
    }
  }
}
