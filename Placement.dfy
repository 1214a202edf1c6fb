/** Where a citation goes in the document. The citation role either
    leaves a pending node where the citation was written (in-text styles,
    or text already inside a footnote) or writes a footnote reference there
    and appends a new footnote, holding the pending node, to the nearest
    structural ancestor. Later the citation transform resolves each pending
    node, taking the note number from an enclosing footnote. The document
    is an abstract tree of numbered nodes with parent pointers. */
module Placement {
  import opened Common
  import opened ExportJs
  import CiteParser
  import opened Registry

  /** The node classes the role and the transform look at. `Section`
      stands for every structural element other than the document itself
      (section, topic, sidebar). */
  datatype Kind =
    | DocumentRoot
    | Section
    | Footnote
    | Paragraph
    | Pending
    | FootnoteReference
    | CitationText
    | OtherElement

  /** The document itself is structural too. */
  predicate IsStructural(k: Kind)
  {
    k == DocumentRoot || k == Section
  }

  // ---------------------------------------------------------------------
  // Footnote labels

  const Digits := "0123456789"

  /** `random_label`: twenty characters, each chosen among the decimal
      digits; `draw(i)` stands for the i-th random choice. */
  function RandomLabel(draw: nat -> nat): (r: string)
    ensures |r| == 20 && AllDigits(r)
  {
    seq(20, i requires 0 <= i < 20 => Digits[draw(i) % 10])
  }

  lemma DigitAt(k: nat)
    requires k < 10
    ensures Digits[k] as int == '0' as int + k
  {
  }

  /** Every string of twenty digits can be drawn, so the labels are not
      unique by construction. */
  lemma EveryLabelCanBeDrawn(s: string)
    requires |s| == 20 && AllDigits(s)
    ensures exists draw :: RandomLabel(draw) == s
  {
    var draw := (i: nat) => if i < 20 then (s[i] as int - '0' as int) as nat else 0;
    forall i | 0 <= i < 20
      ensures RandomLabel(draw)[i] == s[i]
    {
      DigitAt(draw(i));
    }
    assert RandomLabel(draw) == s;
  }

  // ---------------------------------------------------------------------
  // Transform order

  const CitationPriority := 650
  const BibliographyPriority := 700

  /** The two transforms the extension schedules, each for one pending node. */
  datatype Transform = CitationTransform(node: nat) | BibliographyTransform(node: nat)

  function Priority(t: Transform): (p: nat)
    ensures t.CitationTransform? ==> p == CitationPriority
    ensures t.BibliographyTransform? ==> p == BibliographyPriority
  {
    match t
    case CitationTransform(_) => CitationPriority
    case BibliographyTransform(_) => BibliographyPriority
  }

  /** Transforms run in order of increasing priority. */
  predicate Scheduled(ts: seq<Transform>)
  {
    forall i, j :: 0 <= i < j < |ts| ==> Priority(ts[i]) <= Priority(ts[j])
  }

  /** In any schedule every citation is resolved (and so tracked and
      numbered) before the bibliography is built. */
  lemma CitationsBeforeBibliography(ts: seq<Transform>, i: nat, j: nat)
    requires Scheduled(ts) && i < |ts| && j < |ts|
    requires ts[i].BibliographyTransform? && ts[j].CitationTransform?
    ensures j < i
  {
  }

  // ---------------------------------------------------------------------
  // The document tree

  datatype RoleError = NoConnection | ParseFailed(error: CiteParser.ParseError) | UnknownItem(key: string)

  datatype ResolveError = MissingFootnoteNumber(footnote: nat) | NotTracked

  /** The child lists after a new node, numbered `|cs|`, is appended as
      the last child of `parent`: that list gains it, the new node has no
      children, and every other list is unchanged. */
  function AppendChild(cs: seq<seq<nat>>, parent: nat): (r: seq<seq<nat>>)
    requires parent < |cs|
    ensures |r| == |cs| + 1 && r[parent] == cs[parent] + [|cs|] && r[|cs|] == []
    ensures forall n :: 0 <= n < |cs| && n != parent ==> r[n] == cs[n]
  {
    cs[parent := cs[parent] + [|cs|]] + [[]]
  }

  class Document {
    var kinds: seq<Kind>
    var parents: seq<Option<nat>>
    var children: seq<seq<nat>>
    /** Footnote names and footnote-reference target names. */
    var names: map<nat, string>
    /** The citation attached to each pending node. */
    var cites: map<nat, CitationInfo>
    /** Pending nodes in the order they were noted. */
    var pendings: seq<nat>
    /** Footnote numbers, given by the document's auto-numbering. */
    var numbers: map<nat, nat>
    /** Parents are strictly shallower, so every chain of parents ends. */
    ghost var depth: seq<nat>

    ghost predicate Valid()
      reads this
    {
      |kinds| >= 1 && |parents| == |kinds| && |children| == |kinds| && |depth| == |kinds| &&
      kinds[0] == DocumentRoot && parents[0] == None &&
      (forall n :: 0 <= n < |parents| && parents[n].Some? ==>
         parents[n].value < |kinds| && depth[parents[n].value] < depth[n]) &&
      (forall n, i :: 0 <= n < |children| && 0 <= i < |children[n]| ==>
         children[n][i] < |kinds| && parents[children[n][i]] == Some(n)) &&
      (forall p :: p in cites ==> p < |kinds| && parents[p].Some?) &&
      (forall i :: 0 <= i < |pendings| ==> pendings[i] in cites) &&
      (forall f :: f in numbers ==> f < |kinds|)
    }

    constructor ()
      ensures Valid()
      ensures kinds == [DocumentRoot] && parents == [None] && children == [[]]
      ensures names == map[] && cites == map[] && pendings == [] && numbers == map[]
    {
      kinds := [DocumentRoot];
      parents := [None];
      children := [[]];
      names := map[];
      cites := map[];
      pendings := [];
      numbers := map[];
      depth := [0];
    }

    /** A new node, appended as the last child of `parent` or left
        detached. */
    method AddNode(k: Kind, parent: Option<nat>) returns (n: nat)
      requires Valid() && (parent.Some? ==> parent.value < |kinds|)
      modifies this
      ensures Valid()
      ensures n == old(|kinds|) && kinds == old(kinds) + [k] && parents == old(parents) + [parent]
      ensures parent.Some? ==> children == AppendChild(old(children), parent.value)
      ensures parent.None? ==> children == old(children) + [[]]
      ensures names == old(names) && cites == old(cites) && pendings == old(pendings) && numbers == old(numbers)
    {
      n := |kinds|;
      kinds := kinds + [k];
      parents := parents + [parent];
      match parent
      case Some(p) =>
        children := children[p := children[p] + [n]] + [[]];
        depth := depth + [depth[p] + 1];
      case None =>
        children := children + [[]];
        depth := depth + [0];
    }

    /** The document's auto-numbering gives a footnote its number. */
    method NumberFootnote(f: nat, number: nat)
      requires Valid() && f < |kinds| && kinds[f] == Footnote
      modifies this
      ensures Valid()
      ensures numbers == old(numbers)[f := number]
      ensures kinds == old(kinds) && parents == old(parents) && children == old(children)
      ensures names == old(names) && cites == old(cites) && pendings == old(pendings)
    {
      numbers := numbers[f := number];
    }

    /** The node and its ancestors, nearest first. */
    function Chain(from: Option<nat>): (c: seq<nat>)
      reads this
      requires Valid() && (from.Some? ==> from.value < |kinds|)
      ensures forall i :: 0 <= i < |c| ==> c[i] < |kinds|
      ensures from.None? <==> c == []
      ensures from.Some? ==> c[0] == from.value
      decreases if from.Some? then depth[from.value] + 1 else 0
    {
      match from
      case None => []
      case Some(n) => [n] + Chain(parents[n])
    }

    /** The nearest structural node on the chain starting at `from`. */
    function NearestStructural(from: Option<nat>): (r: Option<nat>)
      reads this
      requires Valid() && (from.Some? ==> from.value < |kinds|)
      ensures r.Some? ==> r.value < |kinds| && IsStructural(kinds[r.value])
      decreases if from.Some? then depth[from.value] + 1 else 0
    {
      match from
      case None => None
      case Some(n) => if IsStructural(kinds[n]) then Some(n) else NearestStructural(parents[n])
    }

    /** The node a new footnote is appended to: the nearest structural
        ancestor, or the document when the chain has none. */
    function FootnoteTarget(from: Option<nat>): (t: nat)
      reads this
      requires Valid() && (from.Some? ==> from.value < |kinds|)
      ensures t < |kinds| && IsStructural(kinds[t])
    {
      match NearestStructural(from)
      case Some(n) => n
      case None => 0
    }

    /** No node of the list is structural. */
    predicate NoneStructural(c: seq<nat>)
      reads this
    {
      forall k :: 0 <= k < |c| ==> c[k] < |kinds| && !IsStructural(kinds[c[k]])
    }

    /** The walk finds nothing exactly when no node of the chain is
        structural. */
    lemma {:induction false} NearestStructuralNone(from: Option<nat>)
      requires Valid() && (from.Some? ==> from.value < |kinds|)
      ensures NearestStructural(from).None? <==> NoneStructural(Chain(from))
      decreases if from.Some? then depth[from.value] + 1 else 0
    {
      match from
      case None =>
      case Some(n) =>
        if IsStructural(kinds[n]) {
          assert Chain(from)[0] == n;
        } else {
          NearestStructuralNone(parents[n]);
          ChainStep(n);
        }
    }

    /** One step up the chain from a node that is not structural. */
    lemma ChainStep(n: nat)
      requires Valid() && n < |kinds| && !IsStructural(kinds[n])
      ensures NearestStructural(Some(n)) == NearestStructural(parents[n])
      ensures NoneStructural(Chain(Some(n))) <==> NoneStructural(Chain(parents[n]))
    {
      var c := Chain(Some(n));
      var rest := Chain(parents[n]);
      assert c == [n] + rest;
      if NoneStructural(rest) {
        forall k | 0 <= k < |c|
          ensures c[k] < |kinds| && !IsStructural(kinds[c[k]])
        {
          if k > 0 {
            assert c[k] == rest[k - 1];
          }
        }
      }
      if NoneStructural(c) {
        forall k | 0 <= k < |rest|
          ensures rest[k] < |kinds| && !IsStructural(kinds[rest[k]])
        {
          assert c[k + 1] == rest[k];
        }
      }
    }

    /** When the walk finds a node, it is on the chain and every node of
        the chain before it is not structural. */
    lemma {:induction false} NearestStructuralFirst(from: Option<nat>)
      requires Valid() && (from.Some? ==> from.value < |kinds|)
      requires NearestStructural(from).Some?
      ensures exists k :: 0 <= k < |Chain(from)| && Chain(from)[k] == NearestStructural(from).value &&
                forall j :: 0 <= j < k ==> !IsStructural(kinds[Chain(from)[j]])
      decreases if from.Some? then depth[from.value] + 1 else 0
    {
      var n := from.value;
      var c := Chain(from);
      if IsStructural(kinds[n]) {
        assert c[0] == NearestStructural(from).value;
      } else {
        var rest := Chain(parents[n]);
        assert c == [n] + rest;
        NearestStructuralFirst(parents[n]);
        var k :| 0 <= k < |rest| && rest[k] == NearestStructural(parents[n]).value &&
                 forall j :: 0 <= j < k ==> !IsStructural(kinds[rest[j]]);
        assert c[k + 1] == rest[k];
        assert forall j :: 0 < j < k + 1 ==> c[j] == rest[j - 1];
      }
    }

    /** A chain that reaches the document always finds a structural node,
        so the fallback is taken only for a chain of detached nodes. */
    lemma {:induction false} AttachedFindsStructural(from: Option<nat>)
      requires Valid() && (from.Some? ==> from.value < |kinds|)
      requires 0 in Chain(from)
      ensures NearestStructural(from).Some?
    {
      NearestStructuralNone(from);
      var c := Chain(from);
      var k :| 0 <= k < |c| && c[k] == 0;
      assert IsStructural(kinds[c[k]]);
    }

    /** The `while` loop of the role: climb from `from` until a structural
        node or the top, and fall back to the document. */
    method FindFootnoteTarget(from: Option<nat>) returns (target: nat)
      requires Valid() && (from.Some? ==> from.value < |kinds|)
      ensures target == FootnoteTarget(from)
    {
      var where: Option<nat> := from;
      while where.Some? && !IsStructural(kinds[where.value])
        invariant where.Some? ==> where.value < |kinds|
        invariant NearestStructural(where) == NearestStructural(from)
        decreases if where.Some? then depth[where.value] + 1 else 0
      {
        where := parents[where.value];
      }
      if where.Some? {
        target := where.value;
      } else {
        target := 0;
      }
    }

    /** The role's host element sits directly inside a footnote. */
    predicate InFootnote(host: nat)
      reads this
      requires Valid() && host < |kinds|
      ensures InFootnote(host) ==> host != 0
    {
      parents[host].Some? && kinds[parents[host].value] == Footnote
    }

    /** The grandparent of a node, read by the citation transform. */
    function Grandparent(p: nat): (g: Option<nat>)
      reads this
      requires Valid() && p < |kinds|
      ensures g.Some? ==> g.value < |kinds|
    {
      match parents[p]
      case None => None
      case Some(q) => parents[q]
    }

    /** Note a pending node for a citation. */
    method AddPending(parent: nat, ci: CitationInfo) returns (p: nat)
      requires Valid() && parent < |kinds|
      modifies this
      ensures Valid()
      ensures p == old(|kinds|) && kinds == old(kinds) + [Pending] && parents == old(parents) + [Some(parent)]
      ensures children == AppendChild(old(children), parent)
      ensures cites == old(cites)[p := ci] && pendings == old(pendings) + [p]
      ensures names == old(names) && numbers == old(numbers)
    {
      p := AddNode(Pending, Some(parent));
      cites := cites[p := ci];
      pendings := pendings + [p];
    }

    /** A footnote reference in the host, and a new footnote named by the
        same label, holding a paragraph that holds the pending node,
        appended to `target`. */
    method AddFootnoteCitation(host: nat, target: nat, footLabel: string, ci: CitationInfo) returns (ref: nat)
      requires Valid() && host < |kinds| && target < |kinds|
      modifies this
      ensures Valid()
      ensures ref == old(|kinds|)
      ensures kinds == old(kinds) + [FootnoteReference, Footnote, Paragraph, Pending]
      ensures parents == old(parents) + [Some(host), Some(target), Some(ref + 1), Some(ref + 2)]
      ensures children == AppendChild(AppendChild(AppendChild(AppendChild(old(children), host), target), ref + 1), ref + 2)
      ensures names == old(names)[ref := footLabel][ref + 1 := footLabel]
      ensures cites == old(cites)[ref + 3 := ci] && pendings == old(pendings) + [ref + 3]
      ensures numbers == old(numbers)
    {
      ref := AddFootnoteReference(host, footLabel);
      var f := AddFootnote(target, footLabel, ci);
    }

    /** A footnote reference, named by the label, as the last child of the host. */
    method AddFootnoteReference(host: nat, footLabel: string) returns (ref: nat)
      requires Valid() && host < |kinds|
      modifies this
      ensures Valid()
      ensures ref == old(|kinds|) && kinds == old(kinds) + [FootnoteReference] && parents == old(parents) + [Some(host)]
      ensures children == AppendChild(old(children), host)
      ensures names == old(names)[ref := footLabel]
      ensures cites == old(cites) && pendings == old(pendings) && numbers == old(numbers)
    {
      ref := AddNode(FootnoteReference, Some(host));
      names := names[ref := footLabel];
    }

    /** A footnote named by the label, holding a paragraph that holds the
        pending node, as the last child of `target`. */
    method AddFootnote(target: nat, footLabel: string, ci: CitationInfo) returns (f: nat)
      requires Valid() && target < |kinds|
      modifies this
      ensures Valid()
      ensures f == old(|kinds|)
      ensures kinds == old(kinds) + [Footnote, Paragraph, Pending]
      ensures parents == old(parents) + [Some(target), Some(f), Some(f + 1)]
      ensures children == AppendChild(AppendChild(AppendChild(old(children), target), f), f + 1)
      ensures names == old(names)[f := footLabel]
      ensures cites == old(cites)[f + 2 := ci] && pendings == old(pendings) + [f + 2]
      ensures numbers == old(numbers)
    {
      f := AddNode(Footnote, Some(target));
      names := names[f := footLabel];
      var para := AddNode(Paragraph, Some(f));
      var p := AddPending(para, ci);
    }

    /** The role's three-way choice once the citation is tracked: with an
        in-text style, or inside a footnote, a pending node in place;
        otherwise a footnote reference in place and a new footnote with the
        pending node, appended to the nearest structural ancestor of the
        inliner's parent. */
    method PlaceCitation(host: nat, ci: CitationInfo, inText: bool, footLabel: string) returns (nodes: seq<nat>)
      requires Valid() && host < |kinds|
      modifies this
      ensures Valid()
      ensures inText || old(InFootnote(host)) ==>
                var p := old(|kinds|);
                nodes == [p] && kinds == old(kinds) + [Pending] && parents == old(parents) + [Some(host)] &&
                children == AppendChild(old(children), host) &&
                cites == old(cites)[p := ci] && pendings == old(pendings) + [p] &&
                names == old(names) && numbers == old(numbers)
      ensures !(inText || old(InFootnote(host))) ==>
                var ref := old(|kinds|);
                var target := old(FootnoteTarget(parents[host]));
                nodes == [ref] &&
                kinds == old(kinds) + [FootnoteReference, Footnote, Paragraph, Pending] &&
                parents == old(parents) + [Some(host), Some(target), Some(ref + 1), Some(ref + 2)] &&
                children == AppendChild(AppendChild(AppendChild(AppendChild(old(children), host), target), ref + 1), ref + 2) &&
                names == old(names)[ref := footLabel][ref + 1 := footLabel] &&
                cites == old(cites)[ref + 3 := ci] && pendings == old(pendings) + [ref + 3] &&
                numbers == old(numbers)
    {
      if inText || InFootnote(host) {
        var p := AddPending(host, ci);
        nodes := [p];
      } else {
        var target := FindFootnoteTarget(parents[host]);
        var ref := AddFootnoteCitation(host, target, footLabel, ci);
        nodes := [ref];
      }
    }

    /** `ZoteroTransform.apply`: a pending node whose grandparent is a
        footnote takes that footnote's number as the note index; then the
        citation is requested and the pending node replaced by its text. */
    method ResolvePending(p: nat, conn: Connection) returns (sent: Option<set<int>>, r: Result<CitationRequest, ResolveError>)
      requires Valid() && p in cites
      modifies this, cites[p]
      ensures Valid()
      ensures var ci := old(cites[p]);
              var g := old(Grandparent(p));
              var inNote := g.Some? && old(kinds[g.value]) == Footnote;
              (inNote && g.value !in old(numbers) ==> sent == None && r == Failure(MissingFootnoteNumber(g.value)) && unchanged(this) && unchanged(ci)) &&
              (!(inNote && g.value !in old(numbers)) ==>
                 (!conn.itemsRegistered ==> sent == Some(Ids(conn.trackedItems))) &&
                 ci.noteIndex == (if inNote then old(numbers[g.value]) else old(ci.noteIndex)) &&
                 (r.Success? <==> ci in conn.trackedItems) &&
                 (r.Success? ==> Some(r.value) == BuildCitationRequest(conn.trackedItems, ci) &&
                                 kinds == old(kinds)[p := CitationText]) &&
                 (r.Failure? ==> r.error == NotTracked && kinds == old(kinds)))
      ensures parents == old(parents) && children == old(children) && cites == old(cites)
      ensures pendings == old(pendings) && names == old(names) && numbers == old(numbers)
    {
      var ci := cites[p];
      var g := Grandparent(p);
      if g.Some? && kinds[g.value] == Footnote {
        if g.value !in numbers {
          sent := None;
          r := Failure(MissingFootnoteNumber(g.value));
          return;
        }
        ci.noteIndex := numbers[g.value];
      }
      var request;
      sent, request := conn.GetCitation(ci);
      match request
      case Some(req) =>
        kinds := kinds[p := CitationText];
        r := Success(req);
      case None =>
        r := Failure(NotTracked);
    }
  }

  /** The role's steps once the item is known: build the citation record,
      track it, then place it. */
  method TrackAndPlace(conn: Connection, doc: Document, host: nat, parsed: CiteParser.ParsedCite,
                       resolved: ResolvedKey, itemId: int, inText: bool, footLabel: string)
    returns (nodes: seq<nat>, ci: CitationInfo)
    requires doc.Valid() && host < |doc.kinds|
    modifies conn, doc
    ensures doc.Valid()
    ensures fresh(ci) && ci.key == resolved.key && ci.origKey == resolved.origKey && ci.id == itemId
    ensures ci.prefix == parsed.prefix && ci.locator == parsed.locator && ci.suffix == parsed.suffix
    ensures ci.suppressAuthor == parsed.suppressAuthor && ci.noteIndex == 0
    ensures conn.trackedItems == old(conn.trackedItems) + [ci]
    ensures conn.keys == old(conn.keys) && conn.itemsRegistered == old(conn.itemsRegistered) && conn.citePos == old(conn.citePos)
    ensures inText || old(doc.InFootnote(host)) ==>
              var p := old(|doc.kinds|);
              nodes == [p] && doc.kinds == old(doc.kinds) + [Pending] && doc.parents == old(doc.parents) + [Some(host)] &&
              doc.children == AppendChild(old(doc.children), host) &&
              doc.cites == old(doc.cites)[p := ci] && doc.pendings == old(doc.pendings) + [p] &&
              doc.names == old(doc.names) && doc.numbers == old(doc.numbers)
    ensures !(inText || old(doc.InFootnote(host))) ==>
              var ref := old(|doc.kinds|);
              var target := old(doc.FootnoteTarget(doc.parents[host]));
              nodes == [ref] &&
              doc.kinds == old(doc.kinds) + [FootnoteReference, Footnote, Paragraph, Pending] &&
              doc.parents == old(doc.parents) + [Some(host), Some(target), Some(ref + 1), Some(ref + 2)] &&
              doc.children == AppendChild(AppendChild(AppendChild(AppendChild(old(doc.children), host), target), ref + 1), ref + 2) &&
              doc.names == old(doc.names)[ref := footLabel][ref + 1 := footLabel] &&
              doc.cites == old(doc.cites)[ref + 3 := ci] && doc.pendings == old(doc.pendings) + [ref + 3] &&
              doc.numbers == old(doc.numbers)
  {
    ci := new CitationInfo(parsed, resolved, itemId);
    conn.TrackItem(ci);
    nodes := doc.PlaceCitation(host, ci, inText, footLabel);
  }

  /** `zot_cite_role`: fail without a connection; parse the text, apply
      the key alias and look the item up (the steps of building the
      citation record); track the record before anything else; then place
      it. `host` is the element the role's nodes go into, a child of the
      inliner's parent (or detached, when the inliner has no parent). */
  method CiteRole(conn: Connection?, doc: Document, host: nat, text: string, library: map<string, int>,
                  xclass: Option<string>, draw: nat -> nat)
    returns (r: Result<seq<nat>, RoleError>, ci: CitationInfo?)
    requires doc.Valid() && host < |doc.kinds|
    modifies conn, doc
    ensures doc.Valid()
    ensures conn == null ==> r == Failure(NoConnection) && unchanged(doc)
    ensures conn != null && CiteParser.Parse(text).Failure? ==>
              r == Failure(ParseFailed(CiteParser.Parse(text).error)) && unchanged(conn, doc)
    ensures conn != null && CiteParser.Parse(text).Success? ==>
              var parsed := CiteParser.Parse(text).value;
              var resolved := ResolveAlias(parsed.key, old(conn.LookupKey(parsed.key)));
              (GetItemId(resolved.key, library).None? ==> r == Failure(UnknownItem(resolved.key)) && unchanged(conn, doc)) &&
              (GetItemId(resolved.key, library).Some? ==>
                 r.Success? && ci != null && fresh(ci) &&
                 ci.key == resolved.key && ci.origKey == resolved.origKey &&
                 Some(ci.id) == GetItemId(resolved.key, library) &&
                 ci.prefix == parsed.prefix && ci.locator == parsed.locator && ci.suffix == parsed.suffix &&
                 ci.suppressAuthor == parsed.suppressAuthor && ci.noteIndex == 0 &&
                 conn.trackedItems == old(conn.trackedItems) + [ci])
    ensures conn != null ==>
              conn.keys == old(conn.keys) && conn.itemsRegistered == old(conn.itemsRegistered) && conn.citePos == old(conn.citePos)
    ensures r.Success? && (IsInTextStyle(xclass) || old(doc.InFootnote(host))) ==>
              var p := old(|doc.kinds|);
              r.value == [p] && doc.kinds == old(doc.kinds) + [Pending] && doc.parents == old(doc.parents) + [Some(host)] &&
              doc.children == AppendChild(old(doc.children), host) &&
              doc.cites == old(doc.cites)[p := ci] && doc.pendings == old(doc.pendings) + [p] &&
              doc.names == old(doc.names) && doc.numbers == old(doc.numbers)
    ensures r.Success? && !(IsInTextStyle(xclass) || old(doc.InFootnote(host))) ==>
              var ref := old(|doc.kinds|);
              var target := old(doc.FootnoteTarget(doc.parents[host]));
              r.value == [ref] &&
              doc.kinds == old(doc.kinds) + [FootnoteReference, Footnote, Paragraph, Pending] &&
              doc.parents == old(doc.parents) + [Some(host), Some(target), Some(ref + 1), Some(ref + 2)] &&
              doc.children == AppendChild(AppendChild(AppendChild(AppendChild(old(doc.children), host), target), ref + 1), ref + 2) &&
              doc.names == old(doc.names)[ref := RandomLabel(draw)][ref + 1 := RandomLabel(draw)] &&
              doc.cites == old(doc.cites)[ref + 3 := ci] && doc.pendings == old(doc.pendings) + [ref + 3] &&
              doc.numbers == old(doc.numbers)
  {
    ci := null;
    if conn == null {
      r := Failure(NoConnection);
      return;
    }
    var parsed := CiteParser.Parse(text);
    if parsed.Failure? {
      r := Failure(ParseFailed(parsed.error));
      return;
    }
    var resolved := ResolveAlias(parsed.value.key, conn.LookupKey(parsed.value.key));
    var id := GetItemId(resolved.key, library);
    if id.None? {
      r := Failure(UnknownItem(resolved.key));
      return;
    }
    var nodes, made := TrackAndPlace(conn, doc, host, parsed.value, resolved, id.value,
                                     IsInTextStyle(xclass), RandomLabel(draw));
    ci := made;
    r := Success(nodes);
  }
}
