/** Small value types and sequence helpers shared by the rest of the model:
    the failure-carrying wrappers, and the handful of Python list idioms
    (`" ".join`, `takewhile`, `dropwhile`, `islice(…, 1, None)`) that the
    citation parser is written with. */
module Common {

  datatype Option<+T> = None | Some(value: T)

  datatype Result<+R, +E> = Success(value: R) | Failure(error: E)

  /** Concatenation of a list of lists; on strings, `"".join(ws)`. */
  function Concat<T>(ws: seq<seq<T>>): (r: seq<T>)
  {
    if ws == [] then [] else ws[0] + Concat(ws[1..])
  }

  lemma {:induction false} ConcatAppend<T>(a: seq<seq<T>>, b: seq<seq<T>>)
    ensures Concat(a + b) == Concat(a) + Concat(b)
  {
    if a == [] {
      assert a + b == b;
    } else {
      assert (a + b)[1..] == a[1..] + b;
      ConcatAppend(a[1..], b);
    }
  }

  /** Where the i-th string of `ws` starts inside `Concat(ws)`. */
  function Offset<T>(ws: seq<seq<T>>, i: nat): nat
    requires i <= |ws|
  {
    if i == 0 then 0 else |ws[0]| + Offset(ws[1..], i - 1)
  }

  /** Every string of the list is found, unchanged, at its own offset in
      the concatenation. */
  lemma {:induction false} ConcatSlice<T>(ws: seq<seq<T>>, i: nat)
    requires i < |ws|
    ensures Offset(ws, i) + |ws[i]| <= |Concat(ws)|
    ensures Concat(ws)[Offset(ws, i)..Offset(ws, i) + |ws[i]|] == ws[i]
  {
    if i > 0 {
      ConcatSlice(ws[1..], i - 1);
      var rest := Concat(ws[1..]);
      var o := Offset(ws[1..], i - 1);
      assert (ws[0] + rest)[|ws[0]| + o..|ws[0]| + o + |ws[i]|] == rest[o..o + |ws[i]|];
    }
  }

  /** `" ".join(ws)`: the strings separated by single spaces. */
  function JoinSpace(ws: seq<string>): (r: string)
  {
    if ws == [] then ""
    else if |ws| == 1 then ws[0]
    else ws[0] + " " + JoinSpace(ws[1..])
  }

  lemma {:induction false} JoinSpaceCons(w: string, ws: seq<string>)
    requires ws != []
    ensures JoinSpace([w] + ws) == w + " " + JoinSpace(ws)
  {
    assert ([w] + ws)[1..] == ws;
  }

  /** `itertools.takewhile(p, s)`: the longest prefix whose elements all satisfy `p`. */
  function TakeWhile<T>(p: T -> bool, s: seq<T>): (r: seq<T>)
    ensures |r| <= |s| && r == s[..|r|]
    ensures forall i :: 0 <= i < |r| ==> p(r[i])
    ensures |r| < |s| ==> !p(s[|r|])
  {
    if s == [] || !p(s[0]) then [] else [s[0]] + TakeWhile(p, s[1..])
  }

  /** `itertools.dropwhile(p, s)`: what is left after that prefix. */
  function DropWhile<T>(p: T -> bool, s: seq<T>): (r: seq<T>)
    ensures |r| <= |s| && r == s[|s| - |r|..]
    ensures r != [] ==> !p(r[0])
  {
    if s == [] || !p(s[0]) then s else DropWhile(p, s[1..])
  }

  /** `islice(s, 1, None)`: everything but the first element, if any. */
  function Tail<T>(s: seq<T>): (r: seq<T>)
    ensures s == [] ==> r == []
    ensures s != [] ==> s == [s[0]] + r
  {
    if s == [] then [] else s[1..]
  }

  /** The number of elements satisfying `p`, i.e. `len([x for x in s if p(x)])`. */
  function CountIf<T>(p: T -> bool, s: seq<T>): (n: nat)
    ensures n <= |s|
    ensures n == 0 <==> forall i :: 0 <= i < |s| ==> !p(s[i])
  {
    if s == [] then 0 else (if p(s[0]) then 1 else 0) + CountIf(p, s[1..])
  }

  lemma {:induction false} CountIfAppend<T>(p: T -> bool, a: seq<T>, b: seq<T>)
    ensures CountIf(p, a + b) == CountIf(p, a) + CountIf(p, b)
  {
    if a == [] {
      assert a + b == b;
    } else {
      assert (a + b)[1..] == a[1..] + b;
      CountIfAppend(p, a[1..], b);
    }
  }

  /** `[x for x in s if p(x)]`. */
  function Filter<T>(p: T -> bool, s: seq<T>): (r: seq<T>)
    ensures |r| == CountIf(p, s)
    ensures forall i :: 0 <= i < |r| ==> p(r[i])
  {
    if s == [] then []
    else if p(s[0]) then [s[0]] + Filter(p, s[1..])
    else Filter(p, s[1..])
  }

  lemma {:induction false} FilterAppend<T>(p: T -> bool, a: seq<T>, b: seq<T>)
    ensures Filter(p, a + b) == Filter(p, a) + Filter(p, b)
  {
    if a == [] {
      assert a + b == b;
    } else {
      assert (a + b)[1..] == a[1..] + b;
      FilterAppend(p, a[1..], b);
    }
  }

  /** takewhile stops at the first element failing `p` and dropwhile resumes there. */
  lemma {:induction false} TakeDropAtFirstFailure<T>(p: T -> bool, a: seq<T>, x: T, b: seq<T>)
    requires forall i :: 0 <= i < |a| ==> p(a[i])
    requires !p(x)
    ensures TakeWhile(p, a + [x] + b) == a
    ensures DropWhile(p, a + [x] + b) == [x] + b
  {
    if a != [] {
      assert (a + [x] + b)[1..] == a[1..] + [x] + b;
      TakeDropAtFirstFailure(p, a[1..], x, b);
    } else {
      assert a + [x] + b == [x] + b;
    }
  }

  /** When every element satisfies `p`, takewhile keeps all and dropwhile nothing. */
  lemma {:induction false} TakeDropAll<T>(p: T -> bool, a: seq<T>)
    requires forall i :: 0 <= i < |a| ==> p(a[i])
    ensures TakeWhile(p, a) == a
    ensures DropWhile(p, a) == []
  {
    if a != [] {
      TakeDropAll(p, a[1..]);
    }
  }
}
