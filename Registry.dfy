/** The connection object on the Python side: the list of citation
    occurrences met so far, the key alias table, the registration of item
    ids with the processor, the citation request sent for each occurrence
    and the text of the bibliography. The processor itself, reached over
    the network, is outside the model: what is sent to it is returned, and
    what it answers is passed in. */
module Registry {
  import opened Common
  import opened ExportJs
  import CiteParser

  /** `DEFAULT_CITATION_FORMAT`, the style used when the setup directive
      names none. */
  const DefaultCitationFormat := "http://www.zotero.org/styles/chicago-author-date"

  /** The Python default is exactly what the browser side makes of an
      absent or empty style id, and is left alone when passed explicitly. */
  lemma DefaultFormatAgrees()
    ensures NormaliseStyleId(None) == DefaultCitationFormat
    ensures NormaliseStyleId(Some("")) == DefaultCitationFormat
    ensures NormaliseStyleId(Some(DefaultCitationFormat)) == DefaultCitationFormat
  {
    NormaliseEmptyStyleId();
    DefaultFormatSpelling();
    NormaliseStyleIdFixedIff(DefaultCitationFormat);
  }

  lemma DefaultFormatSpelling()
    ensures DefaultCitationFormat == StyleRepository + DefaultStyleName
    ensures StartsWithHttp(DefaultCitationFormat)
  {
    var r := StyleRepository + DefaultStyleName;
    assert r[..7] == StyleRepository[..7];
    assert StyleRepository[..7] == HttpScheme;
    assert DefaultCitationFormat == r;
  }

  /** The key of a citation after the alias step, and the original key
      when an alias was applied (the source leaves `origkey` unset
      otherwise). */
  datatype ResolvedKey = ResolvedKey(key: string, origKey: Option<string>)

  /** The alias step of the citation record: the looked-up replacement, if
      any, becomes the key and the written key is remembered. */
  function ResolveAlias(key: string, newKey: Option<string>): (r: ResolvedKey)
    ensures r.origKey.Some? <==> newKey.Some?
    ensures r.origKey.Some? ==> r.origKey.value == key
  {
    match newKey
    case Some(k) => ResolvedKey(k, Some(key))
    case None => ResolvedKey(key, None)
  }

  /** A citation occurrence. Every field but the note index is fixed when
      it is built; `citeLabel`, the source's `label`, is never given by the parser. */
  class CitationInfo {
    const key: string
    const origKey: Option<string>
    const id: int
    const citeLabel: Option<string>
    const locator: string
    const suppressAuthor: bool
    const prefix: string
    const suffix: string
    var noteIndex: int

    constructor (parsed: CiteParser.ParsedCite, resolved: ResolvedKey, itemId: int)
      ensures key == resolved.key && origKey == resolved.origKey && id == itemId
      ensures citeLabel == None && locator == parsed.locator && suppressAuthor == parsed.suppressAuthor
      ensures prefix == parsed.prefix && suffix == parsed.suffix
      ensures noteIndex == 0
    {
      key := resolved.key;
      origKey := resolved.origKey;
      id := itemId;
      citeLabel := None;
      locator := parsed.locator;
      suppressAuthor := parsed.suppressAuthor;
      prefix := parsed.prefix;
      suffix := parsed.suffix;
      noteIndex := 0;
    }
  }

  /** `list.index` on the occurrence list: the first position holding this
      very object (the record class defines no equality of its own). */
  function IndexOf(items: seq<CitationInfo>, c: CitationInfo): (r: Option<nat>)
    ensures r.Some? <==> c in items
    ensures r.Some? ==> r.value < |items| && items[r.value] == c
    ensures r.Some? ==> forall j :: 0 <= j < r.value ==> items[j] != c
  {
    if items == [] then None
    else if items[0] == c then Some(0)
    else match IndexOf(items[1..], c)
      case Some(i) => Some(i + 1)
      case None => None
  }

  /** Appending an occurrence moves no earlier one, and a new occurrence is
      found at the end. */
  lemma {:induction false} IndexOfAppend(items: seq<CitationInfo>, x: CitationInfo, c: CitationInfo)
    ensures c in items ==> IndexOf(items + [x], c) == IndexOf(items, c)
    ensures c !in items && c == x ==> IndexOf(items + [x], c) == Some(|items|)
  {
    var a := items + [x];
    assert c in items ==> c in a;
    assert c == x ==> a[|items|] == c;
    if c in items {
      var i := IndexOf(items, c).value;
      assert a[i] == c;
      assert forall j :: 0 <= j < i ==> a[j] == items[j];
    }
  }

  /** The set of item ids of the occurrences. */
  function Ids(items: seq<CitationInfo>): (r: set<int>)
    ensures forall i :: 0 <= i < |items| ==> items[i].id in r
    ensures forall x :: x in r ==> exists i :: 0 <= i < |items| && items[i].id == x
  {
    set i | 0 <= i < |items| :: items[i].id
  }

  /** An id is registered exactly when some occurrence cites that item. */
  lemma IdsIff(items: seq<CitationInfo>, id: int)
    ensures id in Ids(items) <==> exists c :: c in items && c.id == id
  {
    if c :| c in items && c.id == id {
      var i :| 0 <= i < |items| && items[i] == c;
      assert items[i].id in Ids(items);
    }
  }

  /** Tracking one more occurrence adds its id and keeps every other. */
  lemma IdsAppend(items: seq<CitationInfo>, c: CitationInfo)
    ensures Ids(items + [c]) == Ids(items) + {c.id}
  {
    var a := items + [c];
    forall id | id in Ids(a)
      ensures id in Ids(items) + {c.id}
    {
      var i :| 0 <= i < |a| && a[i].id == id;
      if i < |items| {
        assert items[i].id == id;
      }
    }
    forall id | id in Ids(items) + {c.id}
      ensures id in Ids(a)
    {
      if id == c.id {
        assert a[|items|].id == id;
      } else {
        var i :| 0 <= i < |items| && items[i].id == id;
        assert a[i].id == id;
      }
    }
  }

  /** The argument of the processor's citation call. */
  datatype CitationRequest = CitationRequest(citationItems: seq<CitationInfo>, index: nat, noteIndex: int)

  /** The request for one occurrence: the occurrence alone, its position in
      the occurrence list and its note index. An occurrence that was never
      tracked has no position, and the source fails. */
  function BuildCitationRequest(items: seq<CitationInfo>, c: CitationInfo): (r: Option<CitationRequest>)
    reads c
    ensures r.Some? <==> c in items
    ensures r.Some? ==> r.value.citationItems == [c] && r.value.noteIndex == c.noteIndex
    ensures r.Some? ==> r.value.index < |items| && items[r.value.index] == c && c !in items[..r.value.index]
  {
    match IndexOf(items, c)
    case Some(i) => Some(CitationRequest([c], i, c.noteIndex))
    case None => None
  }

  /** The bibliography as the processor returns it: the opening and closing
      markup and one formatted entry per item. */
  datatype BibData = BibData(bibstart: string, entries: seq<string>, bibend: string)

  /** The text handed to the reST converter for the bibliography. */
  function BibliographyText(bib: BibData): (r: string)
    ensures |r| == |bib.bibstart| + |Concat(bib.entries)| + |bib.bibend|
  {
    bib.bibstart + Concat(bib.entries) + bib.bibend
  }

  /** The bibliography opens with the opening markup, closes with the
      closing markup, and holds every entry, unchanged and in order, at its
      own offset in between. */
  lemma BibliographyHoldsEntries(bib: BibData, i: nat)
    requires i < |bib.entries|
    ensures var r := BibliographyText(bib);
            var o := |bib.bibstart| + Offset(bib.entries, i);
            r[..|bib.bibstart|] == bib.bibstart &&
            r[|r| - |bib.bibend|..] == bib.bibend &&
            o + |bib.entries[i]| <= |r| - |bib.bibend| &&
            r[o..o + |bib.entries[i]|] == bib.entries[i]
  {
    var body := Concat(bib.entries);
    ConcatSlice(bib.entries, i);
    var o := Offset(bib.entries, i);
    var r := BibliographyText(bib);
    assert r == bib.bibstart + (body + bib.bibend);
    assert r[|bib.bibstart|..][o..o + |bib.entries[i]|] == body[o..o + |bib.entries[i]|];
  }

  /** The connection to the citation processor. */
  class Connection {
    const bibType: string
    var trackedItems: seq<CitationInfo>
    var citePos: int
    var keys: map<string, string>
    var itemsRegistered: bool

    /** The registration flag is read but never set, and the position
        counter is never used. */
    predicate Valid()
      reads this
    {
      !itemsRegistered && citePos == 0
    }

    constructor (bibType: Option<string>)
      ensures this.bibType == (if bibType.Some? then bibType.value else DefaultCitationFormat)
      ensures trackedItems == [] && keys == map[]
      ensures Valid()
    {
      this.bibType := if bibType.Some? then bibType.value else DefaultCitationFormat;
      trackedItems := [];
      citePos := 0;
      keys := map[];
      itemsRegistered := false;
    }

    /** Reading the key file adds (or replaces) the options of its `keys`
        section; keys are compared case-sensitively. */
    method LoadKeys(section: map<string, string>)
      modifies this
      ensures keys == old(keys) + section
      ensures trackedItems == old(trackedItems) && itemsRegistered == old(itemsRegistered)
      ensures citePos == old(citePos)
    {
      keys := keys + section;
    }

    method TrackItem(item: CitationInfo)
      modifies this
      ensures trackedItems == old(trackedItems) + [item]
      ensures keys == old(keys) && itemsRegistered == old(itemsRegistered) && citePos == old(citePos)
    {
      trackedItems := trackedItems + [item];
    }

    /** The alias of a key, if the `keys` section has one. */
    function LookupKey(key: string): (r: Option<string>)
      reads this
      ensures r.Some? <==> key in keys
      ensures r.Some? ==> r.value == keys[key]
    {
      if key in keys then Some(keys[key]) else None
    }

    /** The ids sent to the processor: every distinct tracked id, unless
        the flag is set; since it never is, every call sends them again. */
    method RegisterItems() returns (sent: Option<set<int>>)
      ensures itemsRegistered ==> sent == None
      ensures !itemsRegistered ==> sent == Some(Ids(trackedItems))
      ensures Valid() ==> sent.Some? && forall c :: c in trackedItems ==> c.id in sent.value
    {
      if !itemsRegistered {
        sent := Some(Ids(trackedItems));
        forall c | c in trackedItems
          ensures c.id in sent.value
        {
          IdsIff(trackedItems, c.id);
        }
      } else {
        sent := None;
      }
    }

    /** `get_index`: the position of the first occurrence that is this
        very object, found by a scan from the front. */
    method GetIndex(c: CitationInfo) returns (r: Option<nat>)
      ensures r == IndexOf(trackedItems, c)
    {
      var i := 0;
      while i < |trackedItems| && trackedItems[i] != c
        invariant 0 <= i <= |trackedItems|
        invariant forall j :: 0 <= j < i ==> trackedItems[j] != c
      {
        i := i + 1;
      }
      if i < |trackedItems| {
        r := Some(i);
      } else {
        r := None;
      }
    }

    /** `get_citation`: register the items, then build the request for
        this occurrence. */
    method GetCitation(c: CitationInfo) returns (sent: Option<set<int>>, request: Option<CitationRequest>)
      ensures !itemsRegistered ==> sent == Some(Ids(trackedItems))
      ensures request == BuildCitationRequest(trackedItems, c)
    {
      sent := RegisterItems();
      var index := GetIndex(c);
      match index
      case Some(i) =>
        request := Some(CitationRequest([c], i, c.noteIndex));
      case None =>
        request := None;
    }

    /** `generate_rest_bibliography`: register the items, then put the
        processor's bibliography together. */
    method GenerateBibliography(bib: BibData) returns (sent: Option<set<int>>, text: string)
      ensures !itemsRegistered ==> sent == Some(Ids(trackedItems))
      ensures text == BibliographyText(bib)
    {
      sent := RegisterItems();
      text := bib.bibstart + Concat(bib.entries) + bib.bibend;
    }
  }

  /** The alias step: an alias listed under the exact key replaces it and
      the written key is kept as the original; any other key is kept, with
      no original recorded. */
  lemma AliasStep(conn: Connection, key: string)
    ensures var r := ResolveAlias(key, conn.LookupKey(key));
            (key in conn.keys ==> r == ResolvedKey(conn.keys[key], Some(key))) &&
            (key !in conn.keys ==> r == ResolvedKey(key, None))
  {
  }
}
