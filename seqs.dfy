/** Sequence helpers shared by the mock DOM and the slot-range DOM. */
module Seqs {

  /** No element occurs twice. */
  predicate Distinct<T(==)>(s: seq<T>) {
    forall i, j :: 0 <= i < j < |s| ==> s[i] != s[j]
  }

  /** A prefix of a sequence without repetitions has none either. */
  lemma DistinctPrefix<T>(s: seq<T>, n: nat)
    requires Distinct(s) && n <= |s|
    ensures Distinct(s[..n])
  {
    var d := s[..n];
    forall i, j | 0 <= i < j < |d| ensures d[i] != d[j] {
      assert d[i] == s[i] && d[j] == s[j];
    }
  }

  /** In a sequence without repetitions the element at `p` is found in no
      stretch that leaves `p` out. */
  lemma DistinctApart<T>(s: seq<T>, p: nat, i: nat, j: nat)
    requires Distinct(s) && p < |s| && i <= j <= |s| && (p < i || j <= p)
    ensures s[p] !in s[i..j]
  {
  }

  /** `Array.prototype.indexOf`: the first position of `x`, or -1. */
  function IndexOf<T(==)>(s: seq<T>, x: T): (r: int)
    ensures r == -1 <==> x !in s
    ensures r != -1 ==> 0 <= r < |s| && s[r] == x && x !in s[..r]
  {
    if |s| == 0 then -1
    else if s[0] == x then 0
    else
      var k := IndexOf(s[1..], x);
      assert s[1..][..(if k == -1 then 0 else k)] == s[1..1 + (if k == -1 then 0 else k)];
      if k == -1 then -1 else k + 1
  }

  /** `s` with the element at `pos` taken out (`splice(pos, 1)`). */
  function Without<T>(s: seq<T>, pos: nat): (r: seq<T>)
    requires pos < |s|
    ensures |r| == |s| - 1
    ensures forall k {:trigger r[k]} :: 0 <= k < |r| ==> r[k] == if k < pos then s[k] else s[k + 1]
  {
    assert s == s[..pos] + [s[pos]] + s[pos + 1..];
    var r := s[..pos] + s[pos + 1..];
    r
  }

  /** `s` with the block `xs` put in at `pos` (`splice(pos, 0, ...xs)`). */
  function Spliced<T>(s: seq<T>, pos: nat, xs: seq<T>): (r: seq<T>)
    requires pos <= |s|
    ensures |r| == |s| + |xs|
    ensures forall k {:trigger r[k]} :: 0 <= k < |r| ==>
      r[k] == if k < pos then s[k] else if k < pos + |xs| then xs[k - pos] else s[k - |xs|]
  {
    assert s == s[..pos] + s[pos..];
    s[..pos] + xs + s[pos..]
  }

  /** `s` with the element at `from` taken out and put back at `to`
      (`splice(from, 1)` then `splice(to, 0, x)`, for `to <= from`). */
  function Moved<T>(s: seq<T>, from: nat, to: nat): (r: seq<T>)
    requires to <= from < |s|
    ensures |r| == |s|
    ensures forall k {:trigger r[k]} :: 0 <= k < |r| ==>
      r[k] == if k < to || from < k then s[k] else if k == to then s[from] else s[k - 1]
  {
    Spliced(Without(s, from), to, [s[from]])
  }

  /** Moving one element permutes the sequence. */
  lemma MovedPermutes<T>(s: seq<T>, from: nat, to: nat)
    requires to <= from < |s|
    ensures multiset(Moved(s, from, to)) == multiset(s)
  {
    var a, b, c := s[..to], s[to..from], s[from + 1..];
    var w := Without(s, from);
    assert w == s[..from] + c;
    assert s[..from] == a + b;
    assert w[..to] == a && w[to..] == b + c;
    assert s == a + b + [s[from]] + c;
    assert Moved(s, from, to) == a + [s[from]] + (b + c);
  }

  /** Taking an element out keeps a sequence free of repetitions. */
  lemma DistinctWithout<T>(s: seq<T>, pos: nat)
    requires Distinct(s) && pos < |s|
    ensures Distinct(Without(s, pos))
  {
    var r := Without(s, pos);
    forall i, j | 0 <= i < j < |r| ensures r[i] != r[j] {
      assert r[i] == s[if i < pos then i else i + 1];
      assert r[j] == s[if j < pos then j else j + 1];
    }
  }

  /** Splicing in a block of new elements keeps a sequence free of repetitions. */
  lemma DistinctSpliced<T>(s: seq<T>, pos: nat, xs: seq<T>)
    requires pos <= |s| && Distinct(s) && Distinct(xs)
    requires forall k :: 0 <= k < |xs| ==> xs[k] !in s
    ensures Distinct(Spliced(s, pos, xs))
  {
    var t := Spliced(s, pos, xs);
    var n := |xs|;
    forall i, j | 0 <= i < j < |t| ensures t[i] != t[j] {
      if j < pos {
        assert t[i] == s[i] && t[j] == s[j];
      } else if j < pos + n {
        assert t[j] == xs[j - pos];
        if i >= pos {
          assert t[i] == xs[i - pos];
        } else {
          assert t[i] == s[i];
        }
      } else {
        assert t[j] == s[j - n];
        if i < pos {
          assert t[i] == s[i];
        } else if i < pos + n {
          assert t[i] == xs[i - pos];
        } else {
          assert t[i] == s[i - n];
        }
      }
    }
  }

  /** Moving an element keeps a sequence free of repetitions. */
  lemma DistinctMoved<T>(s: seq<T>, from: nat, to: nat)
    requires Distinct(s) && to <= from < |s|
    ensures Distinct(Moved(s, from, to))
  {
    var w := Without(s, from);
    DistinctWithout(s, from);
    forall k | 0 <= k < |w| ensures w[k] != s[from] {
      assert w[k] == s[if k < from then k else k + 1];
    }
    assert [s[from]][0] == s[from];
    DistinctSpliced(w, to, [s[from]]);
  }
}
