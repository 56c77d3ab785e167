/**
  The document `mailgunflanker/2es.py` builds for one parsed message before it
  sends it to Elasticsearch.  Every message document has a `subject` and a
  `headers` list.  A multipart message adds a `parts` list (its textual parts)
  and an `attachments` list (its other parts that have a body, Base64-encoded);
  a single-part message adds its `content_type` and either `body` (textual) or
  `binbody` (anything else).

  The spec functions here (`DocumentOf` and what it uses) say what the document
  is; `BuildDocument` builds it key by key with a loop over the parts, as the
  script does, and is proved to produce exactly `DocumentOf`.
*/
module EmailDoc {
  import opened Wrappers
  import Base64
  import opened Mime

  /** The JSON-like values a document holds. `Raw` is a body kept verbatim. */
  datatype Json =
    | Null
    | Str(s: string)
    | Raw(bytes: seq<Base64.byte>)
    | Arr(items: seq<Json>)
    | Obj(fields: map<string, Json>)

  /** The Python dictionary `doc`. */
  type Document = map<string, Json>

  /** The one way building a document fails: calling `is_multipart()` on a missing content type. */
  datatype BuildError = MissingContentType

  // ----- Headers -----

  /** One header as the two-element list `[name, str(value)]`. */
  function HeaderPair(h: Header): Json {
    Arr([Str(h.name), Str(h.value.rendered)])
  }

  /**
    The header list of a message or part (lines 29, 40 and 48): one
    two-element list of name and rendered value per header, same count, same order.
  */
  function HeaderPairs(hs: seq<Header>): (r: seq<Json>)
    ensures |r| == |hs|
    ensures forall i :: 0 <= i < |hs| ==> r[i] == Arr([Str(hs[i].name), Str(hs[i].value.rendered)])
    decreases |hs|
  {
    if |hs| == 0 then [] else HeaderPairs(hs[..|hs| - 1]) + [HeaderPair(hs[|hs| - 1])]
  }

  /** Reads a header list back out of a document: the partner of `HeaderPairs`. */
  function ReadHeaders(r: seq<Json>): Option<seq<Header>>
    decreases |r|
  {
    if |r| == 0 then Some([])
    else
      match r[|r| - 1]
      case Arr(items) =>
        if |items| == 2 && items[0].Str? && items[1].Str? then
          match ReadHeaders(r[..|r| - 1])
          case None => None
          case Some(init) => Some(init + [Header(items[0].s, HeaderValue(items[1].s))])
        else None
      case _ => None
  }

  /** Every header, name and rendered value, can be read back in order from its pairs. */
  lemma {:induction false} ReadHeaderPairs(hs: seq<Header>)
    ensures ReadHeaders(HeaderPairs(hs)) == Some(hs)
    decreases |hs|
  {
    if |hs| > 0 {
      var init := hs[..|hs| - 1];
      ReadHeaderPairs(init);
      var r := HeaderPairs(hs);
      assert r[..|r| - 1] == HeaderPairs(init);
      assert init + [hs[|hs| - 1]] == hs;
    }
  }

  // ----- Classifying the parts of a multipart message -----

  /** `s.startswith(prefix)`. */
  predicate StartsWith(s: string, prefix: string) {
    |prefix| <= |s| && s[..|prefix|] == prefix
  }

  /** The textual test of lines 36 and 54: a content type is present and begins with "text/". */
  predicate IsText(contentType: Option<string>) {
    contentType.Some? && StartsWith(contentType.value, "text/")
  }

  /** `str(content_type)`: Python renders a missing value as "None". */
  function ContentTypeStr(contentType: Option<string>): string {
    match contentType
    case Some(s) => s
    case None => "None"
  }

  /** A body as stored in a document: Python's None becomes null. */
  function BodyValue(body: Option<seq<Base64.byte>>): Json {
    match body
    case Some(b) => Raw(b)
    case None => Null
  }

  /** Where a part of a multipart message goes: the if / elif of the part loop. */
  datatype Placement = InParts | InAttachments | Dropped

  function PlacementOf(p: Message): (r: Placement)
    ensures r == InParts <==> IsText(p.contentType)
    ensures r == InAttachments <==> !IsText(p.contentType) && p.body.Some?
    ensures r == Dropped <==> !IsText(p.contentType) && p.body.None?
  {
    if IsText(p.contentType) then InParts
    else if p.body.Some? then InAttachments
    else Dropped
  }

  /** The dictionary appended to `parts` (textual) or `attachments` (Base64 body) for a part. */
  function Entry(p: Message): (e: Json)
    requires PlacementOf(p) != Dropped
  {
    var body := if PlacementOf(p) == InParts then BodyValue(p.body) else Str(Base64.Encode(p.body.value));
    Obj(map["body" := body, "headers" := Arr(HeaderPairs(p.headers)), "content_type" := Str(ContentTypeStr(p.contentType))])
  }

  /** The entries of the parts placed in `k`, in part order. */
  function Entries(ps: seq<Message>, k: Placement): seq<Json>
    requires k != Dropped
    decreases |ps|
  {
    if |ps| == 0 then []
    else
      var last := ps[|ps| - 1];
      Entries(ps[..|ps| - 1], k) + (if PlacementOf(last) == k then [Entry(last)] else [])
  }

  /** The positions of the parts placed in `k`, in increasing order. */
  function Positions(ps: seq<Message>, k: Placement): seq<nat>
    decreases |ps|
  {
    if |ps| == 0 then []
    else Positions(ps[..|ps| - 1], k) + (if PlacementOf(ps[|ps| - 1]) == k then [|ps| - 1] else [])
  }

  /**
    `Positions(ps, k)` lists, strictly increasing, exactly the positions whose
    part is placed in `k`.
  */
  lemma {:induction false} PositionsExact(ps: seq<Message>, k: Placement)
    ensures forall j :: 0 <= j < |Positions(ps, k)| ==>
      Positions(ps, k)[j] < |ps| && PlacementOf(ps[Positions(ps, k)[j]]) == k
    ensures forall j1, j2 :: 0 <= j1 < j2 < |Positions(ps, k)| ==> Positions(ps, k)[j1] < Positions(ps, k)[j2]
    ensures forall i :: 0 <= i < |ps| && PlacementOf(ps[i]) == k ==> i in Positions(ps, k)
    decreases |ps|
  {
    if |ps| > 0 {
      var n := |ps| - 1;
      var init := ps[..n];
      PositionsExact(init, k);
      var before := Positions(init, k);
      var tail: seq<nat> := if PlacementOf(ps[n]) == k then [n] else [];
      var at := Positions(ps, k);
      assert at == before + tail;
      forall j | 0 <= j < |at|
        ensures at[j] < |ps| && PlacementOf(ps[at[j]]) == k
      {
        if j < |before| {
          assert at[j] == before[j] && ps[before[j]] == init[before[j]];
        }
      }
      forall j1, j2 | 0 <= j1 < j2 < |at|
        ensures at[j1] < at[j2]
      {
        if j2 >= |before| {
          assert at[j1] == before[j1] < n;
        }
      }
      forall i | 0 <= i < |ps| && PlacementOf(ps[i]) == k
        ensures i in at
      {
        if i < n {
          assert init[i] == ps[i];
          assert i in before;
        }
      }
    }
  }

  /** The `j`-th entry in `k` is the entry of the part at the `j`-th position in `k`. */
  lemma {:induction false} EntriesAtPositions(ps: seq<Message>, k: Placement)
    requires k != Dropped
    ensures |Entries(ps, k)| == |Positions(ps, k)|
    ensures forall j :: 0 <= j < |Entries(ps, k)| ==>
      Positions(ps, k)[j] < |ps| && PlacementOf(ps[Positions(ps, k)[j]]) == k &&
      Entries(ps, k)[j] == Entry(ps[Positions(ps, k)[j]])
    decreases |ps|
  {
    if |ps| > 0 {
      var init := ps[..|ps| - 1];
      EntriesAtPositions(init, k);
      PositionsExact(init, k);
      forall i | 0 <= i < |ps| - 1
        ensures ps[i] == init[i]
      {
      }
    }
  }

  /** Every part is placed exactly once: the three position lists together have one entry per part. */
  lemma {:induction false} PositionsPartition(ps: seq<Message>)
    ensures |Positions(ps, InParts)| + |Positions(ps, InAttachments)| + |Positions(ps, Dropped)| == |ps|
    decreases |ps|
  {
    if |ps| > 0 {
      PositionsPartition(ps[..|ps| - 1]);
    }
  }

  /** No part is dropped exactly when every non-textual part has a body. */
  lemma {:induction false} NoneDropped(ps: seq<Message>)
    ensures |Positions(ps, Dropped)| == 0 <==> forall i :: 0 <= i < |ps| ==> IsText(ps[i].contentType) || ps[i].body.Some?
    decreases |ps|
  {
    if |ps| > 0 {
      var init := ps[..|ps| - 1];
      NoneDropped(init);
      forall i | 0 <= i < |ps| - 1
        ensures ps[i] == init[i]
      {
      }
    }
  }

  // ----- The whole document -----

  /** What the script stores for `msg`, or the error it stops with. */
  function DocumentOf(msg: Message): (r: Result<Document, BuildError>)
    ensures r.Err? <==> msg.contentType.None?
    ensures r.Ok? ==> "subject" in r.value && "headers" in r.value
  {
    if msg.contentType.None? then Err(MissingContentType)
    else
      var doc: Document := map["subject" := Str(msg.subject), "headers" := Arr(HeaderPairs(msg.headers))];
      if msg.isMultipart then
        Ok(doc["parts" := Arr(Entries(msg.parts, InParts))]["attachments" := Arr(Entries(msg.parts, InAttachments))])
      else if IsText(msg.contentType) then
        Ok(doc["content_type" := Str(msg.contentType.value)]["body" := BodyValue(msg.body)])
      else
        Ok(doc["content_type" := Str(msg.contentType.value)]["binbody" := BodyValue(msg.body)])
  }

  /** The script fails on a message exactly when the message has no content type. */
  lemma DocumentFails(msg: Message)
    ensures DocumentOf(msg).Err? <==> msg.contentType.None?
  {
  }

  /** Every document carries the cleaned subject and the message-level header pairs. */
  lemma DocumentCommon(msg: Message, d: Document)
    requires DocumentOf(msg) == Ok(d)
    ensures "subject" in d && d["subject"] == Str(msg.subject)
    ensures "headers" in d && d["headers"] == Arr(HeaderPairs(msg.headers))
  {
  }

  /**
    A multipart document has `parts` and `attachments` and none of the
    single-part keys.  Each part lands in at most one of the two lists, and the
    lists together hold every part except the non-textual ones without a body.
  */
  lemma MultipartDocument(msg: Message, d: Document)
    requires DocumentOf(msg) == Ok(d) && msg.isMultipart
    ensures d.Keys == {"subject", "headers", "parts", "attachments"}
    ensures "body" !in d && "binbody" !in d && "content_type" !in d
    ensures d["parts"] == Arr(Entries(msg.parts, InParts))
    ensures d["attachments"] == Arr(Entries(msg.parts, InAttachments))
    ensures forall i :: !(i in Positions(msg.parts, InParts) && i in Positions(msg.parts, InAttachments))
    ensures |d["parts"].items| + |d["attachments"].items| <= |msg.parts|
    ensures |d["parts"].items| + |d["attachments"].items| == |msg.parts| <==>
      forall i :: 0 <= i < |msg.parts| ==> IsText(msg.parts[i].contentType) || msg.parts[i].body.Some?
  {
    PartsDisjoint(msg.parts);
    PartsCounted(msg.parts);
  }

  /** No part is placed both in the parts and in the attachments. */
  lemma {:induction false} PartsDisjoint(ps: seq<Message>)
    ensures forall i :: !(i in Positions(ps, InParts) && i in Positions(ps, InAttachments))
  {
    PositionsExact(ps, InParts);
    PositionsExact(ps, InAttachments);
  }

  /** Both lists together have at most one entry per part, and one for each exactly when none is dropped. */
  lemma {:induction false} PartsCounted(ps: seq<Message>)
    ensures |Entries(ps, InParts)| + |Entries(ps, InAttachments)| <= |ps|
    ensures |Entries(ps, InParts)| + |Entries(ps, InAttachments)| == |ps| <==>
      forall i :: 0 <= i < |ps| ==> IsText(ps[i].contentType) || ps[i].body.Some?
  {
    EntriesAtPositions(ps, InParts);
    EntriesAtPositions(ps, InAttachments);
    PositionsPartition(ps);
    NoneDropped(ps);
  }

  /**
    `parts` holds, in the original order, one entry for each textual part and
    for nothing else: its body as is, its header pairs and its content type.
  */
  lemma TextPartsInOrder(msg: Message, d: Document)
    requires DocumentOf(msg) == Ok(d) && msg.isMultipart
    ensures var parts, at := d["parts"].items, Positions(msg.parts, InParts);
      && |parts| == |at|
      && (forall j1, j2 :: 0 <= j1 < j2 < |at| ==> at[j1] < at[j2])
      && (forall i :: 0 <= i < |msg.parts| && IsText(msg.parts[i].contentType) ==> i in at)
      && (forall j :: 0 <= j < |parts| ==>
            && at[j] < |msg.parts|
            && IsText(msg.parts[at[j]].contentType)
            && parts[j] == Obj(map[
                 "body" := BodyValue(msg.parts[at[j]].body),
                 "headers" := Arr(HeaderPairs(msg.parts[at[j]].headers)),
                 "content_type" := Str(msg.parts[at[j]].contentType.value)]))
  {
    EntriesAtPositions(msg.parts, InParts);
    PositionsExact(msg.parts, InParts);
  }

  /**
    `attachments` holds, in the original order, one entry for each non-textual
    part that has a body, and nothing else: the Base64 encoding of the body, the
    header pairs, and `str()` of the content type, which is "None" for a part
    without one.
  */
  lemma AttachmentsInOrder(msg: Message, d: Document)
    requires DocumentOf(msg) == Ok(d) && msg.isMultipart
    ensures var atts, at := d["attachments"].items, Positions(msg.parts, InAttachments);
      && |atts| == |at|
      && (forall j1, j2 :: 0 <= j1 < j2 < |at| ==> at[j1] < at[j2])
      && (forall i :: 0 <= i < |msg.parts| && !IsText(msg.parts[i].contentType) && msg.parts[i].body.Some? ==> i in at)
      && (forall j :: 0 <= j < |atts| ==>
            && at[j] < |msg.parts|
            && !IsText(msg.parts[at[j]].contentType)
            && msg.parts[at[j]].body.Some?
            && atts[j] == Obj(map[
                 "body" := Str(Base64.Encode(msg.parts[at[j]].body.value)),
                 "headers" := Arr(HeaderPairs(msg.parts[at[j]].headers)),
                 "content_type" := Str(ContentTypeStr(msg.parts[at[j]].contentType))]))
  {
    EntriesAtPositions(msg.parts, InAttachments);
    PositionsExact(msg.parts, InAttachments);
  }

  /**
    A single-part document has `content_type` and exactly one of `body` (when
    the content type is textual) or `binbody`, both holding the raw body, and
    never `parts` or `attachments`.
  */
  lemma SinglePartDocument(msg: Message, d: Document)
    requires DocumentOf(msg) == Ok(d) && !msg.isMultipart
    ensures d.Keys == {"subject", "headers", "content_type", if IsText(msg.contentType) then "body" else "binbody"}
    ensures "parts" !in d && "attachments" !in d
    ensures d["content_type"] == Str(msg.contentType.value)
    ensures ("body" in d) != ("binbody" in d)
    ensures "body" in d <==> IsText(msg.contentType)
    ensures "body" in d ==> d["body"] == BodyValue(msg.body)
    ensures "binbody" in d ==> d["binbody"] == BodyValue(msg.body)
  {
  }

  // ----- Building the document step by step -----

  /**
    Fills `doc` key by key as lines 27-57 of the script do, sorting the parts
    of a multipart message with one pass over them.
  */
  method BuildDocument(msg: Message) returns (r: Result<Document, BuildError>)
    ensures r == DocumentOf(msg)
  {
    if msg.contentType.None? {
      return Err(MissingContentType);
    }
    var doc: Document := map[];
    doc := doc["subject" := Str(msg.subject)];
    doc := doc["headers" := Arr(HeaderPairs(msg.headers))];
    if msg.isMultipart {
      var parts: seq<Json> := [];
      var attachments: seq<Json> := [];
      var i := 0;
      while i < |msg.parts|
        invariant 0 <= i <= |msg.parts|
        invariant parts == Entries(msg.parts[..i], InParts)
        invariant attachments == Entries(msg.parts[..i], InAttachments)
      {
        var part := msg.parts[i];
        assert msg.parts[..i + 1][..i] == msg.parts[..i];
        if IsText(part.contentType) {
          parts := parts + [Obj(map[
            "body" := BodyValue(part.body),
            "headers" := Arr(HeaderPairs(part.headers)),
            "content_type" := Str(ContentTypeStr(part.contentType))])];
        } else if part.body.Some? {
          attachments := attachments + [Obj(map[
            "body" := Str(Base64.Encode(part.body.value)),
            "headers" := Arr(HeaderPairs(part.headers)),
            "content_type" := Str(ContentTypeStr(part.contentType))])];
        }
        i := i + 1;
      }
      assert msg.parts[..i] == msg.parts;
      doc := doc["parts" := Arr(parts)];
      doc := doc["attachments" := Arr(attachments)];
    } else {
      doc := doc["content_type" := Str(ContentTypeStr(msg.contentType))];
      if IsText(msg.contentType) {
        doc := doc["body" := BodyValue(msg.body)];
      } else {
        doc := doc["binbody" := BodyValue(msg.body)];
      }
    }
    r := Ok(doc);
  }
}
