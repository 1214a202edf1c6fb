/** The small normalisers of the browser-side export module: the library
    prefix of item keys, the style id given to the citation processor, the
    recursive escaping of the processor's bibliography data, and the
    in-text test. */
module ExportJs {
  import opened Common

  // ---------------------------------------------------------------------
  // Item keys

  predicate IsDigit(c: char) { '0' <= c <= '9' }

  predicate AllDigits(s: string)
  {
    forall i :: 0 <= i < |s| ==> IsDigit(s[i])
  }

  /** The length of the run of decimal digits that starts the string. */
  function LeadingDigits(s: string): (n: nat)
    ensures n <= |s| && AllDigits(s[..n])
    ensures n < |s| ==> !IsDigit(s[n])
  {
    if s == [] || !IsDigit(s[0]) then 0
    else
      var m := LeadingDigits(s[1..]);
      assert s[..1 + m] == [s[0]] + s[1..][..m];
      1 + m
  }

  /** The test `/^[0-9]+_/`: one or more digits, then an underscore. */
  predicate HasLibraryPrefix(s: string)
    ensures HasLibraryPrefix(s) ==> |s| >= 2 && IsDigit(s[0]) && '_' in s
  {
    var n := LeadingDigits(s);
    0 < n < |s| && s[n] == '_'
  }

  /** The greedy test agrees with the regular expression read literally:
      some non-empty all-digit prefix is followed by `_`. */
  lemma HasLibraryPrefixIff(s: string)
    ensures HasLibraryPrefix(s) <==> exists n :: 0 < n < |s| && AllDigits(s[..n]) && s[n] == '_'
  {
    var m := LeadingDigits(s);
    if n :| 0 < n < |s| && AllDigits(s[..n]) && s[n] == '_' {
      if m < n {
        assert s[..n][m] == s[m];
      } else if m > n {
        assert s[..m][n] == s[n];
      }
    }
  }

  /** `getItemId`'s first step: a key without a library prefix is taken to
      be in library 0. */
  function PrefixItemKey(idStr: string): (r: string)
    ensures HasLibraryPrefix(r)
    ensures HasLibraryPrefix(idStr) ==> r == idStr
    ensures !HasLibraryPrefix(idStr) ==> r == "0_" + idStr
  {
    if HasLibraryPrefix(idStr) then idStr
    else
      var r := "0_" + idStr;
      assert LeadingDigits(r) == 1 by {
        assert LeadingDigits(r[1..]) == 0;
      }
      r
  }

  /** Prefixing twice is prefixing once. */
  lemma PrefixItemKeyIdempotent(idStr: string)
    ensures PrefixItemKey(PrefixItemKey(idStr)) == PrefixItemKey(idStr)
  {
  }

  /** `getItemId`: the prefixed key is split into library id and key and
      looked up among the items; `library` stands for that lookup, keyed by
      the prefixed string. A missing item makes the source fail when it
      reads the item's id. */
  function GetItemId(idStr: string, library: map<string, int>): (r: Option<int>)
    ensures r.Some? <==> PrefixItemKey(idStr) in library
    ensures r.Some? ==> r.value == library[PrefixItemKey(idStr)]
  {
    var key := PrefixItemKey(idStr);
    if key in library then Some(library[key]) else None
  }

  /** Looking up an already prefixed key finds the same item. */
  lemma GetItemIdOfPrefixed(idStr: string, library: map<string, int>)
    ensures GetItemId(PrefixItemKey(idStr), library) == GetItemId(idStr, library)
  {
    PrefixItemKeyIdempotent(idStr);
  }

  // ---------------------------------------------------------------------
  // Style ids

  const DefaultStyleName := "chicago-author-date"
  const StyleRepository := "http://www.zotero.org/styles/"
  const HttpScheme := "http://"

  /** JavaScript's `s.slice(0, n)` for `n >= 0`: it stops at the end of a
      shorter string. */
  function SliceTo(s: string, n: nat): (r: string)
    ensures |r| <= n && |r| <= |s| && r == s[..|r|]
    ensures |s| >= n ==> |r| == n
  {
    if |s| <= n then s else s[..n]
  }

  predicate StartsWithHttp(s: string)
  {
    |s| >= |HttpScheme| && s[..|HttpScheme|] == HttpScheme
  }

  /** `instantiateCiteProc`'s style id: a falsy id (absent, or the empty
      string; `None` stands for `undefined` and `null`) becomes the default
      style name, and an id whose first seven characters are not `http://`
      is taken to name a style of the public style repository. */
  function NormaliseStyleId(styleid: Option<string>): (r: string)
    ensures StartsWithHttp(r)
    ensures var id := if styleid == None || styleid == Some("") then DefaultStyleName else styleid.value;
            r == if StartsWithHttp(id) then id else StyleRepository + id
  {
    var id := if styleid == None || styleid == Some("") then DefaultStyleName else styleid.value;
    if SliceTo(id, 7) != HttpScheme then
      var r := StyleRepository + id;
      assert r[..7] == StyleRepository[..7];
      r
    else id
  }

  /** An id is left alone exactly when it already starts with `http://`. */
  lemma NormaliseStyleIdFixedIff(s: string)
    ensures NormaliseStyleId(Some(s)) == s <==> StartsWithHttp(s)
  {
    if StartsWithHttp(s) {
      assert SliceTo(s, 7) == HttpScheme;
    } else if s != "" {
      assert SliceTo(s, 7) != HttpScheme;
      assert |NormaliseStyleId(Some(s))| > |s|;
    }
  }

  /** Normalising twice is normalising once. */
  lemma NormaliseStyleIdIdempotent(styleid: Option<string>)
    ensures NormaliseStyleId(Some(NormaliseStyleId(styleid))) == NormaliseStyleId(styleid)
  {
    NormaliseStyleIdFixedIff(NormaliseStyleId(styleid));
  }

  /** Only the `http://` scheme is recognised: an `https://` id is prefixed
      as if it were a style name. */
  lemma HttpsIdIsPrefixed(s: string)
    requires |s| >= 8 && s[..8] == "https://"
    ensures NormaliseStyleId(Some(s)) == StyleRepository + s
  {
    assert s[4] == 's' && HttpScheme[4] == ':';
    assert SliceTo(s, 7)[4] == s[4];
  }

  /** An ordinary style name is looked up in the public repository. */
  lemma NormaliseStyleName(s: string)
    requires s != "" && !StartsWithHttp(s)
    ensures NormaliseStyleId(Some(s)) == StyleRepository + s
    ensures NormaliseStyleId(Some(s))[|StyleRepository|..] == s
  {
  }

  /** A missing or empty id names the default style of the repository. */
  lemma NormaliseEmptyStyleId()
    ensures NormaliseStyleId(None) == StyleRepository + DefaultStyleName
    ensures NormaliseStyleId(Some("")) == StyleRepository + DefaultStyleName
  {
    assert DefaultStyleName[1] != HttpScheme[1];
    assert SliceTo(DefaultStyleName, 7)[1] == DefaultStyleName[1];
  }

  // ---------------------------------------------------------------------
  // Escaping the bibliography data

  /** A JavaScript value as `JSON.stringify` sees it. Objects keep their
      members in enumeration order; numbers are modelled as integers. */
  datatype Json =
    | JUndefined
    | JNull
    | JBool(b: bool)
    | JNumber(n: int)
    | JString(s: string)
    | JArray(elems: seq<Json>)
    | JObject(members: seq<Member>)

  datatype Member = Member(name: string, value: Json)

  function Names(ms: seq<Member>): (r: seq<string>)
    ensures |r| == |ms| && forall i :: 0 <= i < |ms| ==> r[i] == ms[i].name
  {
    seq(|ms|, i requires 0 <= i < |ms| => ms[i].name)
  }

  /** The walk of `escapeStringValues`, with what a `null` becomes left as
      a parameter: arrays are mapped element by element, strings are
      escaped, objects are copied member by member into a fresh object,
      and every other value is returned as it is. */
  function EscapeWalk(o: Json, escape: string -> string, onNull: Json): (r: Json)
    ensures o.JArray? ==> r.JArray? && |r.elems| == |o.elems|
    ensures o.JObject? ==> r.JObject? && Names(r.members) == Names(o.members)
    ensures o.JString? ==> r == JString(escape(o.s))
    decreases o
  {
    match o
    case JArray(elems) =>
      JArray(seq(|elems|, i requires 0 <= i < |elems| => EscapeWalk(elems[i], escape, onNull)))
    case JString(s) => JString(escape(s))
    case JObject(members) =>
      JObject(seq(|members|, i requires 0 <= i < |members| =>
        Member(members[i].name, EscapeWalk(members[i].value, escape, onNull))))
    case JNull => onNull
    case _ => o
  }

  /** `escapeStringValues` as written: `typeof null` is `"object"`, so a
      `null` takes the object branch, whose `for … in` loop finds nothing
      to copy, and comes back as an empty object. */
  function EscapeStringValuesAsWritten(o: Json, escape: string -> string): (r: Json)
    ensures o.JNull? ==> r == JObject([])
    ensures !r.JNull?
  {
    EscapeWalk(o, escape, JObject([]))
  }

  /** `escapeStringValues` with `null` kept as `null`, like every other
      non-string scalar. */
  function EscapeStringValues(o: Json, escape: string -> string): (r: Json)
    ensures r.JNull? <==> o.JNull?
  {
    EscapeWalk(o, escape, JNull)
  }

  /** Two values have the same shape: arrays of the same length whose
      elements have the same shapes, objects with the same member names in
      the same order whose values have the same shapes, two strings, or
      one and the same other value. */
  predicate SameShape(a: Json, b: Json)
    decreases a
  {
    match a
    case JArray(xs) =>
      b.JArray? && |xs| == |b.elems| &&
      forall i :: 0 <= i < |xs| ==> SameShape(xs[i], b.elems[i])
    case JObject(ms) =>
      b.JObject? && Names(ms) == Names(b.members) &&
      forall i :: 0 <= i < |ms| ==> SameShape(ms[i].value, b.members[i].value)
    case JString(_) => b.JString?
    case _ => a == b
  }

  /** The corrected escaping keeps the shape of every value. */
  lemma {:induction false} EscapeStringValuesKeepsShape(o: Json, escape: string -> string)
    ensures SameShape(o, EscapeStringValues(o, escape))
    decreases o
  {
    var r := EscapeStringValues(o, escape);
    match o
    case JArray(xs) =>
      forall i | 0 <= i < |xs|
        ensures SameShape(xs[i], r.elems[i])
      {
        EscapeStringValuesKeepsShape(xs[i], escape);
      }
    case JObject(ms) =>
      forall i | 0 <= i < |ms|
        ensures SameShape(ms[i].value, r.members[i].value)
      {
        EscapeStringValuesKeepsShape(ms[i].value, escape);
      }
    case _ =>
  }

  /** Escaping with the identity gives the value back. */
  lemma {:induction false} EscapeWithIdentity(o: Json, escape: string -> string)
    requires forall s :: escape(s) == s
    ensures EscapeStringValues(o, escape) == o
    decreases o
  {
    match o
    case JArray(xs) =>
      forall i | 0 <= i < |xs|
        ensures EscapeStringValues(xs[i], escape) == xs[i]
      {
        EscapeWithIdentity(xs[i], escape);
      }
      assert EscapeStringValues(o, escape).elems == xs;
    case JObject(ms) =>
      forall i | 0 <= i < |ms|
        ensures EscapeStringValues(ms[i].value, escape) == ms[i].value
      {
        EscapeWithIdentity(ms[i].value, escape);
      }
      assert EscapeStringValues(o, escape).members == ms;
    case _ =>
  }

  /** Escaping twice is escaping once with the composed function. */
  lemma {:induction false} EscapeTwice(o: Json, f: string -> string, g: string -> string, h: string -> string)
    requires forall s :: h(s) == g(f(s))
    ensures EscapeStringValues(EscapeStringValues(o, f), g) == EscapeStringValues(o, h)
    decreases o
  {
    match o
    case JArray(xs) =>
      forall i | 0 <= i < |xs|
        ensures EscapeStringValues(EscapeStringValues(xs[i], f), g) == EscapeStringValues(xs[i], h)
      {
        EscapeTwice(xs[i], f, g, h);
      }
      assert EscapeStringValues(EscapeStringValues(o, f), g).elems == EscapeStringValues(o, h).elems;
    case JObject(ms) =>
      forall i | 0 <= i < |ms|
        ensures EscapeStringValues(EscapeStringValues(ms[i].value, f), g) == EscapeStringValues(ms[i].value, h)
      {
        EscapeTwice(ms[i].value, f, g, h);
      }
      assert EscapeStringValues(EscapeStringValues(o, f), g).members == EscapeStringValues(o, h).members;
    case _ =>
  }

  /** The code as written gives a value without `null` back unchanged
      under the identity escape. */
  lemma EscapeAsWrittenWithIdentity(o: Json, escape: string -> string)
    requires forall s :: escape(s) == s
    requires NullFree(o)
    ensures EscapeStringValuesAsWritten(o, escape) == o
  {
    AsWrittenAgreesWithoutNull(o, escape);
    EscapeWithIdentity(o, escape);
  }

  /** The code as written, too, escapes twice as it escapes once with the
      composed function, on every value: a `null` becomes `{}` in the first
      walk and stays `{}` in the second. */
  lemma {:induction false} EscapeTwiceAsWritten(o: Json, f: string -> string, g: string -> string, h: string -> string)
    requires forall s :: h(s) == g(f(s))
    ensures EscapeStringValuesAsWritten(EscapeStringValuesAsWritten(o, f), g) == EscapeStringValuesAsWritten(o, h)
    decreases o
  {
    match o
    case JArray(xs) =>
      forall i | 0 <= i < |xs|
        ensures EscapeStringValuesAsWritten(EscapeStringValuesAsWritten(xs[i], f), g) == EscapeStringValuesAsWritten(xs[i], h)
      {
        EscapeTwiceAsWritten(xs[i], f, g, h);
      }
      assert EscapeStringValuesAsWritten(EscapeStringValuesAsWritten(o, f), g).elems == EscapeStringValuesAsWritten(o, h).elems;
    case JObject(ms) =>
      forall i | 0 <= i < |ms|
        ensures EscapeStringValuesAsWritten(EscapeStringValuesAsWritten(ms[i].value, f), g) == EscapeStringValuesAsWritten(ms[i].value, h)
      {
        EscapeTwiceAsWritten(ms[i].value, f, g, h);
      }
      assert EscapeStringValuesAsWritten(EscapeStringValuesAsWritten(o, f), g).members == EscapeStringValuesAsWritten(o, h).members;
    case JNull =>
      assert EscapeStringValuesAsWritten(JObject([]), g) == JObject([]);
    case _ =>
  }

  /** A value with no `null` anywhere inside it. */
  predicate NullFree(o: Json)
    decreases o
  {
    match o
    case JNull => false
    case JArray(xs) => forall i :: 0 <= i < |xs| ==> NullFree(xs[i])
    case JObject(ms) => forall i :: 0 <= i < |ms| ==> NullFree(ms[i].value)
    case _ => true
  }

  /** On values without `null` the code as written and the corrected walk
      agree. */
  lemma {:induction false} AsWrittenAgreesWithoutNull(o: Json, escape: string -> string)
    requires NullFree(o)
    ensures EscapeStringValuesAsWritten(o, escape) == EscapeStringValues(o, escape)
    decreases o
  {
    match o
    case JArray(xs) =>
      forall i | 0 <= i < |xs|
        ensures EscapeStringValuesAsWritten(xs[i], escape) == EscapeStringValues(xs[i], escape)
      {
        AsWrittenAgreesWithoutNull(xs[i], escape);
      }
      assert EscapeStringValuesAsWritten(o, escape).elems == EscapeStringValues(o, escape).elems;
    case JObject(ms) =>
      forall i | 0 <= i < |ms|
        ensures EscapeStringValuesAsWritten(ms[i].value, escape) == EscapeStringValues(ms[i].value, escape)
      {
        AsWrittenAgreesWithoutNull(ms[i].value, escape);
      }
      assert EscapeStringValuesAsWritten(o, escape).members == EscapeStringValues(o, escape).members;
    case _ =>
  }

  /** The code as written does not keep the shape of a `null` member: in
      `{"note": null}` the `null` comes back as `{}`. */
  lemma NullMemberLosesShape(escape: string -> string)
    ensures var o := JObject([Member("note", JNull)]);
            EscapeStringValuesAsWritten(o, escape) == JObject([Member("note", JObject([]))]) &&
            !SameShape(o, EscapeStringValuesAsWritten(o, escape))
  {
    var o := JObject([Member("note", JNull)]);
    assert EscapeStringValuesAsWritten(o, escape).members[0].value == JObject([]);
  }

  /** JavaScript truthiness, as tested by `if (ret)`. */
  predicate Truthy(o: Json)
    ensures o.JArray? || o.JObject? ==> Truthy(o)
    ensures o.JNull? || o.JUndefined? ==> !Truthy(o)
  {
    match o
    case JUndefined => false
    case JNull => false
    case JBool(b) => b
    case JNumber(n) => n != 0
    case JString(s) => s != ""
    case _ => true
  }

  /** `getBibliographyData` up to the serialisation: a truthy reply of the
      processor goes through the escaping walk as written, a falsy one is
      passed on as it is. On a reply without `null` the walk as written is
      the shape-keeping one; a `null` inside the reply comes back as `{}`
      (see `NullMemberLosesShape`). */
  function GetBibliographyData(ret: Json, escape: string -> string): (r: Json)
    ensures Truthy(ret) && NullFree(ret) ==> r == EscapeStringValues(ret, escape) && SameShape(ret, r)
    ensures !Truthy(ret) ==> r == ret
  {
    if Truthy(ret) then
      var r := EscapeStringValuesAsWritten(ret, escape);
      if NullFree(ret) then
        AsWrittenAgreesWithoutNull(ret, escape);
        EscapeStringValuesKeepsShape(ret, escape);
        r
      else r
    else ret
  }

  /** A bibliography reply with a `null` member comes back with `{}` in
      its place. */
  lemma BibliographyDataNullMember(escape: string -> string)
    ensures var ret := JObject([Member("note", JNull)]);
            GetBibliographyData(ret, escape) == JObject([Member("note", JObject([]))]) &&
            !SameShape(ret, GetBibliographyData(ret, escape))
  {
    NullMemberLosesShape(escape);
  }

  // ---------------------------------------------------------------------
  // Style class

  /** `isInTextStyle`: whether the processor's style class is `in-text`
      (`None` stands for an unset class). */
  function IsInTextStyle(xclass: Option<string>): (r: bool)
    ensures r <==> xclass == Some("in-text")
  {
    match xclass
    case Some(c) => c == "in-text"
    case None => false
  }
}
