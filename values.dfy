/** The runtime values that flow through template holes.

    The engine recognises what a value can do by probing it at run time
    (`typeof value.then`, `value[Symbol.observable]`, `Array.isArray`, ...).
    Here every such capability is a constructor of one closed datatype, so the
    probes become constructor tests.  Objects carry a reference number `ref`
    that stands for their identity. */
module Values {

  datatype Option<T> = None | Some(value: T)

  datatype Value =
    | Undefined
    | Null
    | Bool(b: bool)
      /** a number that is an integer (fractions and infinities are not
          modelled) */
    | Num(n: int)
      /** the number NaN, the one value that is not `===` to itself */
    | NaN
    | Str(s: string)
      /** an Array */
    | List(ref: nat, items: seq<Value>)
      /** a non-array object with a synchronous iterator (a generator, a Set, ...) */
    | Iterable(ref: nat, items: seq<Value>)
      /** a plain object, with its own enumerable properties in enumeration order */
    | Record(ref: nat, entries: seq<(string, Value)>)
      /** a template instance; `source` is its structural identity */
    | Tmpl(ref: nat, source: nat)
      /** an object with a callable `then` */
    | Thenable(ref: nat)
      /** an object with the observable capability; what a subscriber receives
          synchronously while `subscribe` runs, and whether the subscription is
          already closed when `subscribe` returns */
    | Observable(ref: nat, emitsOnSubscribe: seq<Value>, closesOnSubscribe: bool)
      /** an object with the asynchronous-iteration capability; whether the
          iterator it returns has a `return` method */
    | AsyncIterable(ref: nat, hasReturn: bool)
  {
    predicate IsObject() {
      !(Undefined? || Null? || Bool? || Num? || NaN? || Str?)
    }

    /** Routed by the template updater to one of its async adapters. */
    predicate IsAsyncSource() {
      Thenable? || Observable? || AsyncIterable?
    }
  }

  /** JavaScript strict equality (`===`): primitives by value, objects by
      identity, and NaN equal to nothing, itself included. */
  predicate Same(a: Value, b: Value): (r: bool)
    ensures a.NaN? || b.NaN? ==> !r
    ensures a.IsObject() != b.IsObject() ==> !r
    ensures a.IsObject() && b.IsObject() ==> (r <==> a.ref == b.ref)
    ensures a == b && !a.NaN? ==> r
    ensures !a.IsObject() && !b.IsObject() ==> (r <==> a == b && !a.NaN?)
  {
    if a.IsObject() && b.IsObject() then a.ref == b.ref
    else !a.NaN? && a == b
  }

  /** Decimal digits of a natural number. */
  function NatText(n: nat): (r: string)
    ensures |r| >= 1
    ensures forall k :: 0 <= k < |r| ==> '0' <= r[k] <= '9'
    decreases n
  {
    var d := ['0' + (n % 10) as char];
    if n < 10 then d else NatText(n / 10) + d
  }

  /** The text `Array.prototype.join` uses for one element: `undefined` and
      `null` become the empty string, arrays are joined with commas, every
      other object is rendered as "[object Object]". */
  function JoinText(v: Value): string
  {
    match v
    case Undefined => ""
    case Null => ""
    case Bool(b) => if b then "true" else "false"
    case Num(n) => if n < 0 then "-" + NatText(-n) else NatText(n)
    case NaN => "NaN"
    case Str(s) => s
    case List(_, items) =>
      Interleave(seq(|items|, k requires 0 <= k < |items| => JoinText(items[k])), ",")
    case _ => "[object Object]"
  }

  /** `parts.join(sep)` for parts already turned into text. */
  function Interleave(parts: seq<string>, sep: string): string
  {
    if parts == [] then ""
    else if |parts| == 1 then parts[0]
    else Interleave(parts[..|parts| - 1], sep) + sep + parts[|parts| - 1]
  }

  /** `parts.join('')`. */
  function Concat(parts: seq<Value>): (r: string)
    ensures parts == [] ==> r == ""
  {
    if parts == [] then "" else Concat(parts[..|parts| - 1]) + JoinText(parts[|parts| - 1])
  }

  lemma {:induction false} ConcatAppend(parts: seq<Value>, more: seq<Value>)
    ensures Concat(parts + more) == Concat(parts) + Concat(more)
    decreases |more|
  {
    if more == [] {
      assert parts + more == parts;
    } else {
      var init := more[..|more| - 1];
      assert (parts + more)[..|parts + more| - 1] == parts + init;
      ConcatAppend(parts, init);
    }
  }

  /** The number a string of decimal digits denotes. */
  function DecimalValue(s: string): nat
  {
    if s == [] then 0
    else
      var d := s[|s| - 1] as int - '0' as int;
      DecimalValue(s[..|s| - 1]) * 10 + (if 0 <= d <= 9 then d else 0)
  }

  /** Reading back the digits of `n` gives `n`. */
  lemma {:induction false} NatTextRoundTrip(n: nat)
    ensures DecimalValue(NatText(n)) == n
    decreases n
  {
    var d := ['0' + (n % 10) as char];
    if n >= 10 {
      NatTextRoundTrip(n / 10);
      var t := NatText(n / 10) + d;
      assert t[..|t| - 1] == NatText(n / 10);
    }
  }

  /** The index keys "0", "1", ... of an array or a string: key `k` reads
      back as `k`, so no key repeats. */
  lemma IndexKeys(pairs: seq<(string, Value)>)
    requires forall k :: 0 <= k < |pairs| ==> pairs[k].0 == NatText(k)
    ensures forall k :: 0 <= k < |pairs| ==> DecimalValue(pairs[k].0) == k
    ensures forall j, k :: 0 <= j < k < |pairs| ==> pairs[j].0 != pairs[k].0
  {
    forall k | 0 <= k < |pairs| ensures DecimalValue(pairs[k].0) == k {
      NatTextRoundTrip(k);
    }
  }

  /** The (key, value) pairs a `for (key in value)` loop visits: a plain
      object's own enumerable properties, the indices of an array or a
      string, and nothing for `null`, `undefined` and the other primitives.
      Other objects (templates, promises, observables, iterables) are taken
      to have no enumerable property. */
  function Enumerable(v: Value): (r: seq<(string, Value)>)
    ensures v.Record? ==> r == v.entries
    ensures v.List? ==> |r| == |v.items| && forall k :: 0 <= k < |r| ==>
      DecimalValue(r[k].0) == k && r[k].1 == v.items[k]
    ensures v.Str? ==> |r| == |v.s| && forall k :: 0 <= k < |r| ==>
      DecimalValue(r[k].0) == k && r[k].1 == Str([v.s[k]])
    ensures v.List? || v.Str? ==> forall j, k :: 0 <= j < k < |r| ==> r[j].0 != r[k].0
    ensures !v.IsObject() && !v.Str? ==> r == []
  {
    match v
    case Record(_, entries) => entries
    case List(_, items) =>
      var r := seq(|items|, k requires 0 <= k < |items| => (NatText(k), items[k]));
      IndexKeys(r);
      r
    case Str(s) =>
      var r := seq(|s|, k requires 0 <= k < |s| => (NatText(k), Str([s[k]])));
      IndexKeys(r);
      r
    case _ => []
  }
}
