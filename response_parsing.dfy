/** Turning the completion service's reply into a CV Record
    (`CVExtractor.extract_personal_data` after the remote call), and the user
    message sent with each request. The remote call itself is not part of this
    model: the reply text is an input, and the JSON parser is an abstract
    partial function `parse`. */
module ResponseParsing {
  import opened CvValues
  import opened PyStr

  /** The markdown code fence a reply may be wrapped in. */
  const Fence: string := "```"

  /** The language tag that may follow the opening fence. */
  const JsonTag: string := "json"

  /** How many characters of CV text are sent to the service. */
  const MaxContentChars: nat := 4000

  /** The part of the user message in front of the CV text. */
  function MessageHeader(filename: string): (h: string)
    ensures |h| == |filename| + 27 && h[13..|h| - 14] == filename
    ensures h[..13] == "CV Filename: " && h[|h| - 14..] == "\n\nCV Content:\n"
  {
    "CV Filename: " + filename + "\n\nCV Content:\n"
  }

  /** The user message of the completion request:
      `f"CV Filename: {filename}\n\nCV Content:\n{cv_text[:4000]}"`. */
  function UserMessage(filename: string, cvText: string): (m: string)
    ensures StartsWith(m, MessageHeader(filename))
    ensures m[|MessageHeader(filename)|..] == Prefix(cvText, MaxContentChars)
  {
    var h := MessageHeader(filename);
    var m := h + Prefix(cvText, MaxContentChars);
    assert m[..|h|] == h;
    m
  }

  /** Drops one exact leading `json` tag: the text after the tag when there
      is one, the text itself otherwise. */
  function DropJsonTag(t: string): (r: string)
    ensures StartsWith(t, JsonTag) ==> t == JsonTag + r
    ensures !StartsWith(t, JsonTag) ==> r == t
  {
    if StartsWith(t, JsonTag) then t[|JsonTag|..] else t
  }

  /** The reply after whitespace stripping and fence removal: a reply that
      starts with ``` is replaced by the piece after its first fence
      (`split('```')[1]`), without a leading `json` tag, stripped again. */
  function CleanResponse(raw: string): (t: string)
    ensures Trimmed(t)
  {
    var s := Strip(raw);
    if StartsWith(s, Fence) then Strip(DropJsonTag(Split(s, Fence)[1])) else s
  }

  /** The JSON candidate of a cleaned reply: the slice from the first `{` to
      just past the last `}`, or None when either brace is missing. */
  function JsonCandidate(t: string): (c: Option<string>)
    ensures c.None? <==> ('{' !in t || '}' !in t)
  {
    var start := Find(t, '{');
    var end := RFind(t, '}') + 1;
    if start == -1 || end == 0 then None else Some(Slice(t, start, end))
  }

  /** The record for a cleaned reply `t`: None when `t` is empty, holds no
      candidate, or its candidate does not parse; otherwise the parsed object
      with the key `filename` set to the file's name. */
  function RecordOfCleaned(t: string, filename: string, parse: string -> Option<Record>): (r: Option<Record>)
    ensures r.Some? ==> "filename" in r.value && r.value["filename"] == JString(filename)
  {
    if t == [] then None
    else match JsonCandidate(t)
      case None => None
      case Some(c) =>
        match parse(c)
        case None => None
        case Some(rec) => Some(rec["filename" := JString(filename)])
  }

  /** The record extracted from a reply for `filename` (the steps of
      `extract_personal_data` after the remote call): the reply is cleaned,
      then its candidate is parsed and tagged with the file name. */
  function ExtractPersonalData(raw: string, filename: string, parse: string -> Option<Record>): (r: Option<Record>)
    ensures r.Some? ==> "filename" in r.value && r.value["filename"] == JString(filename)
  {
    RecordOfCleaned(CleanResponse(raw), filename, parse)
  }

  /** The per-file record extractor the pipeline uses: the user message for the
      CV text goes to the completion service `respond`, and the reply is turned
      into a record. */
  function ServiceRecord(respond: string -> string, parse: string -> Option<Record>, cvText: string, filename: string): (r: Option<Record>)
    ensures r.Some? ==> "filename" in r.value && r.value["filename"] == JString(filename)
  {
    ExtractPersonalData(respond(UserMessage(filename, cvText)), filename, parse)
  }

  // ---------------------------------------------------------------------
  // The user message

  /** The message holds the file name and at most the first 4000 characters
      of the CV text: texts that agree on those characters give the same
      message, and a text of at most 4000 characters is sent whole. */
  lemma UserMessageTruncates(filename: string, a: string, b: string)
    requires Prefix(a, MaxContentChars) == Prefix(b, MaxContentChars)
    ensures UserMessage(filename, a) == UserMessage(filename, b)
    ensures |UserMessage(filename, a)| <= |MessageHeader(filename)| + MaxContentChars
    ensures |a| <= MaxContentChars ==> UserMessage(filename, a) == MessageHeader(filename) + a
  {
    var h := MessageHeader(filename);
    var ma, mb := UserMessage(filename, a), UserMessage(filename, b);
    assert ma == ma[..|h|] + ma[|h|..];
    assert mb == mb[..|h|] + mb[|h|..];
  }

  // ---------------------------------------------------------------------
  // Fence removal

  /** A reply that starts with a fence always splits into at least two pieces,
      and the piece taken is the text between the first fence and the next
      one (or the end of the reply when there is no closing fence). */
  lemma FencePiece(s: string)
    requires StartsWith(s, Fence)
    ensures |Split(s, Fence)| >= 2
    ensures var body := s[|Fence|..];
            var k := FindSub(body, Fence);
            Split(s, Fence)[1] == if k == -1 then body else body[..k]
  {
    assert OccursAt(s, Fence, 0);
    assert FindSub(s, Fence) == 0;
    assert s[0 + |Fence|..] == s[|Fence|..];
  }

  /** The cleaned text of a fenced reply is the piece between the first two
      fences, with one exact leading `json` removed and stripped; the piece
      contains no fence itself. */
  lemma FencedClean(raw: string)
    requires StartsWith(Strip(raw), Fence)
    ensures var s := Strip(raw);
            var body := s[|Fence|..];
            var k := FindSub(body, Fence);
            var piece := if k == -1 then body else body[..k];
            && Free(piece, Fence)
            && CleanResponse(raw) == Strip(DropJsonTag(piece))
  {
    var s := Strip(raw);
    FencePiece(s);
    SplitPiecesFree(s, Fence);
  }

  /** A reply that does not start with a fence (after stripping) is only
      stripped. */
  lemma UnfencedClean(raw: string)
    requires !StartsWith(Strip(raw), Fence)
    ensures CleanResponse(raw) == Strip(raw)
  {
  }

  /** Cleaning does not change a reply that is already bare: no surrounding
      whitespace and no leading fence. */
  lemma CleanBare(raw: string)
    requires Trimmed(raw) && !StartsWith(raw, Fence)
    ensures CleanResponse(raw) == raw
  {
    StripPadded([], raw, []);
    assert [] + raw + [] == raw;
  }

  // ---------------------------------------------------------------------
  // Locating the JSON candidate

  /** When the last `}` lies after the first `{`, the candidate is the
      contiguous piece from the first `{` to the last `}` inclusive: it starts
      with `{`, ends with `}`, no `{` precedes it and no `}` follows it. */
  lemma CandidateSpan(t: string)
    requires '{' in t && '}' in t && Find(t, '{') < RFind(t, '}')
    ensures var i, j := Find(t, '{'), RFind(t, '}');
            && JsonCandidate(t) == Some(t[i..j + 1])
            && t[i] == '{' && t[j] == '}'
            && '{' !in t[..i] && '}' !in t[j + 1..]
  {
  }

  /** When the last `}` lies before the first `{`, the candidate is empty. */
  lemma CandidateReversed(t: string)
    requires '{' in t && '}' in t && RFind(t, '}') < Find(t, '{')
    ensures JsonCandidate(t) == Some([])
  {
  }

  /** Text that already starts with `{` and ends with `}` is its own candidate. */
  lemma CandidateWhole(t: string)
    requires |t| > 0 && t[0] == '{' && t[|t| - 1] == '}'
    ensures JsonCandidate(t) == Some(t)
  {
    assert t[..|t|] == t;
  }

  /** Every candidate comes from the cleaned text: it is a slice of it, and a
      non-empty candidate starts with `{` and ends with `}`. */
  lemma CandidateIsSlice(t: string)
    requires JsonCandidate(t).Some?
    ensures var c := JsonCandidate(t).value;
            && (exists i :: OccursAt(t, c, i))
            && (c != [] ==> c[0] == '{' && c[|c| - 1] == '}')
  {
    var i, j := Find(t, '{'), RFind(t, '}');
    var c := JsonCandidate(t).value;
    if i < j {
      CandidateSpan(t);
      assert OccursAt(t, c, i);
    } else {
      assert i != j;
      assert OccursAt(t, c, 0);
    }
  }

  // ---------------------------------------------------------------------
  // The extracted record

  /** An empty cleaned reply, or one without `{` or without `}`, gives None
      whatever the parser is: the parser is never consulted. */
  lemma NoCandidateNoRecord(raw: string, filename: string, parse: string -> Option<Record>)
    requires var t := CleanResponse(raw); t == [] || '{' !in t || '}' !in t
    ensures ExtractPersonalData(raw, filename, parse) == None
  {
  }

  /** The record is exactly the parsed candidate with `filename` set to the
      file's name: a `filename` the reply supplied is overwritten, every other
      parsed key keeps its value, and no other key is added. There is a record
      exactly when the candidate exists and parses. */
  lemma RecordIsParsedCandidate(raw: string, filename: string, parse: string -> Option<Record>)
    ensures var c := JsonCandidate(CleanResponse(raw));
            ExtractPersonalData(raw, filename, parse).Some? <==> c.Some? && parse(c.value).Some?
    ensures var c := JsonCandidate(CleanResponse(raw));
            var r := ExtractPersonalData(raw, filename, parse);
            r.Some? ==>
              var rec := parse(c.value).value;
              && r.value.Keys == rec.Keys + {"filename"}
              && r.value["filename"] == JString(filename)
              && forall k :: k in rec && k != "filename" ==> r.value[k] == rec[k]
  {
    CleanedRecordIsParsedCandidate(CleanResponse(raw), filename, parse);
  }

  /** `RecordIsParsedCandidate` for the cleaned reply. */
  lemma CleanedRecordIsParsedCandidate(t: string, filename: string, parse: string -> Option<Record>)
    ensures var c := JsonCandidate(t);
            RecordOfCleaned(t, filename, parse).Some? <==> c.Some? && parse(c.value).Some?
    ensures var c := JsonCandidate(t);
            var r := RecordOfCleaned(t, filename, parse);
            r.Some? ==>
              var rec := parse(c.value).value;
              && r.value.Keys == rec.Keys + {"filename"}
              && r.value["filename"] == JString(filename)
              && forall k :: k in rec && k != "filename" ==> r.value[k] == rec[k]
  {
    if t == [] {
      assert JsonCandidate(t).None?;
    }
  }

  /** Cleaning only removes characters: every character of the cleaned
      reply occurs in the raw reply. */
  lemma CleanKeepsCharacters(raw: string)
    ensures forall c :: c in CleanResponse(raw) ==> c in raw
  {
    var s := Strip(raw);
    StripChars(raw);
    if StartsWith(s, Fence) {
      FencedPieceChars(s);
      var d := DropJsonTag(Split(s, Fence)[1]);
      StripChars(d);
      assert CleanResponse(raw) == Strip(d);
    }
  }

  /** The untagged piece after the first fence holds only characters of the
      fenced text. */
  lemma FencedPieceChars(s: string)
    requires StartsWith(s, Fence)
    ensures |Split(s, Fence)| >= 2
    ensures forall c :: c in DropJsonTag(Split(s, Fence)[1]) ==> c in s
  {
    var parts := Split(s, Fence);
    SplitJoin(s, Fence);
    JoinChars(parts, Fence, 1);
    var piece := parts[1];
    if StartsWith(piece, JsonTag) {
      SliceChars(piece, |JsonTag|, |piece|);
    }
  }

  /** The characters of one piece occur in the joined text. */
  lemma {:induction false} JoinChars(parts: seq<string>, sep: string, k: nat)
    requires k < |parts|
    ensures forall c :: c in parts[k] ==> c in Join(parts, sep)
  {
    if |parts| > 1 {
      if k > 0 {
        JoinChars(parts[1..], sep, k - 1);
        assert parts[1..][k - 1] == parts[k];
      }
    }
  }

  /** A reply without any `{` never yields a record, whatever the parser is. */
  lemma NoOpenBraceNoRecord(raw: string, filename: string, parse: string -> Option<Record>)
    requires '{' !in raw
    ensures ExtractPersonalData(raw, filename, parse) == None
  {
    CleanKeepsCharacters(raw);
  }

  /** json.loads rejects the empty document. */
  predicate RejectsEmpty(parse: string -> Option<Record>) {
    parse([]) == None
  }

  /** With a parser that rejects the empty document, a reply whose last `}`
      precedes its first `{` gives None. */
  lemma ReversedBracesNoRecord(raw: string, filename: string, parse: string -> Option<Record>)
    requires RejectsEmpty(parse)
    requires var t := CleanResponse(raw); '{' in t && '}' in t && RFind(t, '}') < Find(t, '{')
    ensures ExtractPersonalData(raw, filename, parse) == None
  {
    CandidateReversed(CleanResponse(raw));
  }

  /** A reply that is, up to surrounding whitespace, a bare JSON object is
      handed to the parser whole: parsing it yields that object with the
      file name attached. */
  lemma BareObjectParsedWhole(w1: string, obj: string, w2: string, filename: string, parse: string -> Option<Record>)
    requires AllSpace(w1) && AllSpace(w2)
    requires |obj| > 0 && obj[0] == '{' && obj[|obj| - 1] == '}'
    ensures ExtractPersonalData(w1 + obj + w2, filename, parse) ==
            match parse(obj)
            case None => None
            case Some(rec) => Some(rec["filename" := JString(filename)])
  {
    StripPadded(w1, obj, w2);
    NotFenced(obj);
    CandidateWhole(obj);
  }

  /** Text whose first character is not a backtick does not start with a fence. */
  lemma NotFenced(s: string)
    requires |s| > 0 && s[0] != '`'
    ensures !StartsWith(s, Fence)
  {
    if |s| >= |Fence| { assert s[..|Fence|][0] == s[0]; }
  }

  /** Text without a backtick holds no fence. */
  lemma NoBacktickFree(s: string)
    requires '`' !in s
    ensures Free(s, Fence)
  {
    forall i | 0 <= i <= |s| ensures !OccursAt(s, Fence, i) {
      if i + 3 <= |s| {
        assert s[i..i + 3][0] == s[i];
      }
    }
  }

  /** Whitespace holds no backtick. */
  lemma SpaceNoBacktick(w: string)
    requires AllSpace(w)
    ensures '`' !in w
  {
  }

  /** In a text without backticks followed by a fence, the first fence is
      that one. */
  lemma FirstFenceAfter(inner: string)
    requires '`' !in inner
    ensures FindSub(inner + Fence, Fence) == |inner|
  {
    var body := inner + Fence;
    assert OccursAt(body, Fence, |inner|);
    var i := FindSub(body, Fence);
    assert body[i..i + 3][0] == body[i];
    assert forall k :: 0 <= k < |inner| ==> body[k] != '`';
  }

  /** Removing the optional tag in front of whitespace and an object leaves
      the whitespace and the object. */
  lemma DropTagBeforeObject(tag: string, w1: string, obj: string, w2: string)
    requires AllSpace(w1) && (tag == [] || tag == JsonTag)
    requires |obj| > 0 && obj[0] == '{'
    ensures DropJsonTag(tag + w1 + obj + w2) == w1 + obj + w2
  {
    var inner := tag + w1 + obj + w2;
    if tag == [] {
      assert inner == w1 + obj + w2;
      assert inner[0] == (if w1 == [] then obj[0] else w1[0]);
      assert inner[0] != 'j';
      assert !StartsWith(inner, JsonTag) by {
        if |inner| >= |JsonTag| { assert inner[..4][0] == inner[0]; }
      }
    } else {
      assert inner == JsonTag + (w1 + obj + w2);
      assert inner[..4] == JsonTag;
      assert inner[4..] == w1 + obj + w2;
    }
  }

  /** Text without backticks between two fences is the piece taken. */
  lemma FencedPieceOf(inner: string)
    requires '`' !in inner
    ensures StartsWith(Fence + inner + Fence, Fence)
    ensures Split(Fence + inner + Fence, Fence)[1] == inner
  {
    var s := Fence + inner + Fence;
    assert s[..3] == Fence;
    var body := s[|Fence|..];
    assert body == inner + Fence;
    FirstFenceAfter(inner);
    assert body[..|inner|] == inner;
  }

  /** The piece between the fences, tag removed and stripped, is the object. */
  lemma TaggedObjectClean(tag: string, w1: string, obj: string, w2: string)
    requires AllSpace(w1) && AllSpace(w2) && (tag == [] || tag == JsonTag)
    requires |obj| > 0 && obj[0] == '{' && obj[|obj| - 1] == '}'
    ensures Strip(DropJsonTag(tag + w1 + obj + w2)) == obj
  {
    DropTagBeforeObject(tag, w1, obj, w2);
    StripPadded(w1, obj, w2);
  }

  /** A reply fenced as ```json (or a bare ```), whitespace, a JSON object,
      whitespace and a closing ```, with whitespace around the whole, cleans
      to exactly that object. */
  lemma FencedObjectClean(w0: string, tag: string, w1: string, obj: string, w2: string, w3: string)
    requires AllSpace(w0) && AllSpace(w1) && AllSpace(w2) && AllSpace(w3)
    requires tag == [] || tag == JsonTag
    requires |obj| > 0 && obj[0] == '{' && obj[|obj| - 1] == '}' && '`' !in obj
    ensures CleanResponse(w0 + Fence + tag + w1 + obj + w2 + Fence + w3) == obj
  {
    var raw := w0 + Fence + tag + w1 + obj + w2 + Fence + w3;
    var inner := tag + w1 + obj + w2;
    var s := Fence + inner + Fence;
    assert '`' !in inner by {
      SpaceNoBacktick(w1);
      SpaceNoBacktick(w2);
      assert '`' !in tag;
    }
    assert Strip(raw) == s by {
      assert raw == w0 + s + w3;
      assert Trimmed(s);
      StripPadded(w0, s, w3);
    }
    FencedPieceOf(inner);
    TaggedObjectClean(tag, w1, obj, w2);
  }

  /** The same reply is handed to the parser as exactly that object. */
  lemma FencedObjectParsed(w0: string, tag: string, w1: string, obj: string, w2: string, w3: string,
                           filename: string, parse: string -> Option<Record>)
    requires AllSpace(w0) && AllSpace(w1) && AllSpace(w2) && AllSpace(w3)
    requires tag == [] || tag == JsonTag
    requires |obj| > 0 && obj[0] == '{' && obj[|obj| - 1] == '}' && '`' !in obj
    ensures ExtractPersonalData(w0 + Fence + tag + w1 + obj + w2 + Fence + w3, filename, parse) ==
            match parse(obj)
            case None => None
            case Some(rec) => Some(rec["filename" := JString(filename)])
  {
    FencedObjectClean(w0, tag, w1, obj, w2, w3);
    CandidateWhole(obj);
  }

  // ---------------------------------------------------------------------
  // Worked replies

  /** A reply fenced as ```json ... ``` parses the object between the fences. */
  lemma FencedReplyExample(filename: string, parse: string -> Option<Record>)
    ensures ExtractPersonalData("```json\n{\"name\":\"A\"}\n```", filename, parse) ==
            match parse("{\"name\":\"A\"}")
            case None => None
            case Some(rec) => Some(rec["filename" := JString(filename)])
  {
    var obj := "{\"name\":\"A\"}";
    assert "```json\n{\"name\":\"A\"}\n```" == [] + Fence + JsonTag + "\n" + obj + "\n" + Fence + [];
    FencedObjectParsed([], JsonTag, "\n", obj, "\n", [], filename, parse);
  }

  /** A reply that wraps one JSON object in prose without braces hands
      exactly that object to the parser. */
  lemma ObjectInProse(pre: string, obj: string, post: string, filename: string, parse: string -> Option<Record>)
    requires |obj| > 0 && obj[0] == '{' && obj[|obj| - 1] == '}'
    requires '{' !in pre && '}' !in post
    requires Trimmed(pre + obj + post) && (pre + obj + post)[0] != '`'
    ensures ExtractPersonalData(pre + obj + post, filename, parse) ==
            match parse(obj)
            case None => None
            case Some(rec) => Some(rec["filename" := JString(filename)])
  {
    var raw := pre + obj + post;
    assert CleanResponse(raw) == raw by {
      NotFenced(raw);
      CleanBare(raw);
    }
    CandidateInProse(pre, obj, post);
  }

  /** The candidate of one object between brace-free prose is that object. */
  lemma CandidateInProse(pre: string, obj: string, post: string)
    requires |obj| > 0 && obj[0] == '{' && obj[|obj| - 1] == '}'
    requires '{' !in pre && '}' !in post
    ensures JsonCandidate(pre + obj + post) == Some(obj)
  {
    var raw := pre + obj + post;
    var i, j := |pre|, |pre| + |obj| - 1;
    assert |obj| >= 2;
    assert raw[..i] == pre;
    assert raw[j + 1..] == post;
    assert raw[i] == '{' && raw[j] == '}';
    FindIs(raw, '{', i);
    RFindIs(raw, '}', j);
    CandidateSpan(raw);
    assert raw[i..j + 1] == obj;
  }

  /** A reply with prose around the object still yields the object, found by
      the first `{` and the last `}`. */
  // The three parts are parameters fixed by the precondition, so that the
  // verifier reasons about the parts rather than evaluating the cleaning
  // functions on the whole literal reply.
  lemma ProseReplyExample(pre: string, obj: string, post: string, filename: string, parse: string -> Option<Record>)
    requires pre == "Sure! Here is the data: " && obj == "{\"name\": \"A\"}" && post == "  Hope that helps!"
    ensures ExtractPersonalData(pre + obj + post, filename, parse) ==
            match parse(obj)
            case None => None
            case Some(rec) => Some(rec["filename" := JString(filename)])
  {
    var raw := pre + obj + post;
    assert raw[0] == pre[0] == 'S' && raw[|raw| - 1] == post[|post| - 1] == '!';
    ObjectInProse(pre, obj, post, filename, parse);
  }

  /** A reply with no `{` at all yields no record. */
  lemma NoBraceReplyExample(filename: string, parse: string -> Option<Record>)
    ensures ExtractPersonalData("I could not find any personal data.", filename, parse) == None
  {
    var raw := "I could not find any personal data.";
    assert '{' !in raw;
    NoOpenBraceNoRecord(raw, filename, parse);
  }
}
