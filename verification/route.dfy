/** The `POST /api/guess-raga` handler with its I/O taken out: the request
    body, the API key, the language model's reply, `JSON.parse` and the video
    search all arrive as inputs, and the handler is a pure function from them
    to an HTTP status and body. */
module Route {
  import opened Wrappers
  import opened Text
  import opened Notes

  /** A JSON value as `JSON.parse` produces it. Numbers are kept as reals. */
  datatype Json =
    | JNull
    | JBool(b: bool)
    | JNum(n: real)
    | JStr(s: string)
    | JArr(items: seq<Json>)
    | JObj(fields: map<string, Json>)

  /** A `{ title, url }` link, as the video search returns them. */
  datatype Link = Link(title: string, url: string)

  function LinkJson(l: Link): Json {
    JObj(map["title" := JStr(l.title), "url" := JStr(l.url)])
  }

  function LinksJson(ls: seq<Link>): seq<Json> {
    seq(|ls|, i requires 0 <= i < |ls| => LinkJson(ls[i]))
  }

  /** What the request body holds under `aroha` or `avaroha`: nothing, a falsy
      value (`null`, `false`, `0`, `""`), an array of note ids, or some other
      truthy value (on which `join` throws). */
  datatype Field = Absent | Falsy | Ids(items: seq<string>) | OtherTruthy

  /** JavaScript truthiness; an empty array is truthy. */
  predicate Truthy(f: Field) {
    f.Ids? || f.OtherTruthy?
  }

  /** The request: `Unreadable` is a body on which `request.json()` throws or
      whose destructuring throws (a `null` body). */
  datatype Request = Unreadable | Body(aroha: Field, avaroha: Field)

  /** One part of the model's first candidate; `text` may be missing. */
  datatype Part = Part(text: Option<string>)

  /** The model call: a network or HTTP failure, or the parts of the first
      candidate (no candidate counts as no parts). */
  datatype Reply = Failed | Parts(parts: seq<Part>)

  /** The server configuration: the model API key as read from the
      environment, and the fixed instruction text sent before the user prompt. */
  datatype Config = Config(apiKey: Option<string>, systemPrompt: string)

  /** The HTTP answer: status 200 with a JSON body, or an error status with the
      message of the `{ error }` body. */
  datatype Response = Ok(body: Json) | Err(status: int, message: string)

  const MissingInput := Err(400, "Aroha and Avaroha are required")
  const InternalError := Err(500, "Internal Server Error")

  const PromptHeader := "Identify the Raga for:\nAroha: "
  const PromptMiddle := "\nAvaroha: "
  const ListSeparator := ", "

  /** The user prompt: both id lists joined with ", " under fixed headers. */
  function UserPrompt(aroha: seq<string>, avaroha: seq<string>): string {
    PromptHeader + Join(aroha, ListSeparator) + PromptMiddle + Join(avaroha, ListSeparator)
  }

  /** Reads the two lists back out of a user prompt. */
  function ParsePrompt(p: string): Option<(seq<string>, seq<string>)> {
    if !(PromptHeader <= p) then None
    else
      var rest := p[|PromptHeader|..];
      var k := IndexOf(rest, '\n');
      if k < 0 || !(PromptMiddle <= rest[k..]) then None
      else Some((Split(rest[..k], ListSeparator), Split(rest[k + |PromptMiddle|..], ListSeparator)))
  }

  /** An id that survives the prompt text intact: non-empty, no comma, no newline. */
  predicate PromptSafe(ids: seq<string>) {
    forall i :: 0 <= i < |ids| ==> |ids[i]| > 0 && ',' !in ids[i] && '\n' !in ids[i]
  }

  /** Reading back a prompt built from two texts, the first without a line
      break, splits each text at ", ". */
  lemma ParsePromptOf(a: string, b: string)
    requires '\n' !in a
    ensures ParsePrompt(PromptHeader + a + PromptMiddle + b)
         == Some((Split(a, ListSeparator), Split(b, ListSeparator)))
  {
    var p := PromptHeader + a + PromptMiddle + b;
    var tail := PromptMiddle + b;
    var rest := a + tail;
    assert p == PromptHeader + rest;
    assert p[|PromptHeader|..] == rest;
    assert rest[..|a|] == a;
    assert rest[|a|..] == tail;
    assert rest[|a|] == tail[0] == '\n';
    IndexOfAt(rest, '\n', |a|);
    assert PromptMiddle <= tail;
    assert rest[|a| + |PromptMiddle|..] == tail[|PromptMiddle|..] == b;
  }

  /** The prompt carries both lists unchanged and in order: reading it back
      gives exactly the lists that were sent. */
  lemma PromptRoundTrip(aroha: seq<string>, avaroha: seq<string>)
    requires PromptSafe(aroha) && PromptSafe(avaroha)
    ensures ParsePrompt(UserPrompt(aroha, avaroha)) == Some((aroha, avaroha))
  {
    JoinAvoids(aroha, ListSeparator, '\n');
    ParsePromptOf(Join(aroha, ListSeparator), Join(avaroha, ListSeparator));
    SplitJoin(aroha, ListSeparator);
    SplitJoin(avaroha, ListSeparator);
  }

  // ---------------------------------------------------------------------
  // Offline placeholder

  /** No usable key: missing, or only whitespace once trimmed. */
  predicate KeyMissing(apiKey: Option<string>) {
    apiKey.None? || Trim(apiKey.value) == ""
  }

  /** `id.replace(/^[mt]_/, '')`: drops one leading octave prefix. */
  function StripOctave(id: string): (r: string)
    ensures r == id || (|id| >= 2 && id[1] == '_' && r == id[2..])
  {
    if |id| >= 2 && (id[0] == 'm' || id[0] == 't') && id[1] == '_' then id[2..] else id
  }

  /** The aroha ids with their octave prefixes stripped. */
  function SimpleAroha(aroha: seq<string>): (r: seq<string>)
    ensures |r| == |aroha|
    ensures forall i :: 0 <= i < |aroha| ==> |r[i]| <= |aroha[i]| && r[i] == aroha[i][|aroha[i]| - |r[i]|..]
  {
    seq(|aroha|, i requires 0 <= i < |aroha| => StripOctave(aroha[i]))
  }

  predicate LooksLikeYaman(simple: seq<string>) {
    "M" in simple && "N" in simple && "R" in simple
  }

  predicate LooksLikeBilawal(simple: seq<string>) {
    "R" in simple && "G" in simple && "D" in simple && "N" in simple
  }

  /** The placeholder name: starts unknown, becomes Alhaiya Bilawal when
      R, G, D and N occur, and Yaman when M, N and R occur. */
  function MockRagaName(aroha: seq<string>): (r: string)
    ensures r == "Raga Yaman" <==> LooksLikeYaman(SimpleAroha(aroha))
    ensures r == "Raga Alhaiya Bilawal" <==> !LooksLikeYaman(SimpleAroha(aroha)) && LooksLikeBilawal(SimpleAroha(aroha))
    ensures r == "Unknown Raga (Mock)" <==> !LooksLikeYaman(SimpleAroha(aroha)) && !LooksLikeBilawal(SimpleAroha(aroha))
  {
    var simple := SimpleAroha(aroha);
    var start := "Unknown Raga (Mock)";
    var afterBilawal := if LooksLikeBilawal(simple) then "Raga Alhaiya Bilawal" else start;
    if LooksLikeYaman(simple) then "Raga Yaman" else afterBilawal
  }

  const MockConfidence := "Low (Mock)"

  /** The placeholder body returned when no key is configured. */
  function MockBody(aroha: seq<string>): Json {
    var name := MockRagaName(aroha);
    JObj(map[
      "ragaName" := JStr(name),
      "description" := JStr("This is a simulated response because no GEMINI_API_KEY was configured. "
                            + "The system detected notes that might resemble " + name + "."),
      "confidence" := JStr(MockConfidence),
      "youtubeLinks" := JArr(LinksJson([
        Link("Raga Yaman - Rashid Khan", "https://www.youtube.com/watch?v=example1"),
        Link("Raga Bilawal - Bhimsen Joshi", "https://www.youtube.com/watch?v=example2")])),
      "articles" := JArr(LinksJson([Link("Introduction to Ragas", "https://en.wikipedia.org/wiki/Raga")]))
    ])
  }

  /** The middle-octave key with the same pitch class as catalog key `i`. */
  function MiddleOctaveIndex(i: int): int {
    if i < 5 then i + 12 else if i >= 17 then i - 12 else i
  }

  /** Stripping the prefix maps every catalog key to the middle-octave key of
      the same pitch class, an octave (12 keys) away or the key itself. */
  lemma StripOctaveKeepsPitchClass(i: int)
    requires 0 <= i < |AllNotes|
    ensures 0 <= MiddleOctaveIndex(i) < |AllNotes|
    ensures AllNotes[MiddleOctaveIndex(i)].octave == Madhya
    ensures StripOctave(AllNotes[i].id) == AllNotes[MiddleOctaveIndex(i)].id
    ensures (MiddleOctaveIndex(i) - i) % 12 == 0
  {
    var j := MiddleOctaveIndex(i);
    var id, mid := AllNotes[i].id, AllNotes[j].id;
    IdShape(i);
    IdShape(j);
    CatalogOctaves();
    if i < 5 || i >= 17 {
      PitchClassInjective(id[2], mid[0]);
      assert id[2..] == [id[2]] && mid == [mid[0]];
    }
  }

  /** Two catalog keys share their middle-octave key exactly when they are a
      whole number of octaves apart. */
  lemma MiddleOctaveOfClass(p: int, q: int)
    requires 0 <= p < 25 && 0 <= q < 25
    ensures MiddleOctaveIndex(p) == MiddleOctaveIndex(q) <==> (p - q) % 12 == 0
  {
    var d := p - q;
    var mp, mq := MiddleOctaveIndex(p), MiddleOctaveIndex(q);
    assert mp == p + 12 || mp == p || mp == p - 12;
    assert mq == q + 12 || mq == q || mq == q - 12;
    assert 5 <= mp < 17 && 5 <= mq < 17;
    assert d % 12 == 0 <==> d == -24 || d == -12 || d == 0 || d == 12 || d == 24;
  }

  /** Two id lists that name the same pitch classes position by position. */
  predicate SamePitchClasses(a: seq<string>, b: seq<string>) {
    |a| == |b| && forall i :: 0 <= i < |a| ==> SamePitchClass(a[i], b[i])
  }

  /** Two catalog ids of the same pitch class: they share their middle-octave
      key, which by `MiddleOctaveOfClass` means their positions differ by whole octaves. */
  predicate SamePitchClass(x: string, y: string) {
    IsCatalogId(x) && IsCatalogId(y) && MiddleOctaveIndex(Rank(x)) == MiddleOctaveIndex(Rank(y))
  }

  /** The placeholder ignores octaves: an aroha played an octave higher or
      lower, key by key, strips to the same letters and gets the same
      placeholder body. */
  lemma MockOctaveInvariant(a: seq<string>, b: seq<string>)
    requires SamePitchClasses(a, b)
    ensures SimpleAroha(a) == SimpleAroha(b)
    ensures MockRagaName(a) == MockRagaName(b)
    ensures MockBody(a) == MockBody(b)
  {
    SameClassesStrip(a, b);
    SameSimpleSameMock(a, b);
  }

  /** Lists agreeing in pitch class position by position strip to the same letters. */
  lemma SameClassesStrip(a: seq<string>, b: seq<string>)
    requires SamePitchClasses(a, b)
    ensures SimpleAroha(a) == SimpleAroha(b)
  {
    var sa, sb := SimpleAroha(a), SimpleAroha(b);
    forall i | 0 <= i < |a|
      ensures sa[i] == sb[i]
    {
      SameClassStrips(a[i], b[i]);
    }
  }

  /** The placeholder depends on the aroha only through its stripped letters. */
  lemma SameSimpleSameMock(a: seq<string>, b: seq<string>)
    requires SimpleAroha(a) == SimpleAroha(b)
    ensures MockRagaName(a) == MockRagaName(b)
    ensures MockBody(a) == MockBody(b)
  {
  }

  /** Catalog ids of the same pitch class strip to the same letter. */
  lemma SameClassStrips(x: string, y: string)
    requires SamePitchClass(x, y)
    ensures StripOctave(x) == StripOctave(y)
  {
    StripToMiddle(x);
    StripToMiddle(y);
  }

  /** A catalog id strips to the id of the middle-octave key of its pitch class. */
  lemma StripToMiddle(x: string)
    requires IsCatalogId(x)
    ensures 0 <= Rank(x) < 25
    ensures StripOctave(x) == AllNotes[MiddleOctaveIndex(Rank(x))].id
  {
    StripOctaveKeepsPitchClass(Rank(x));
  }

  /** Single-letter ids, the middle octave, carry no prefix to strip. */
  lemma SimpleMiddle(aroha: seq<string>)
    requires forall i :: 0 <= i < |aroha| ==> |aroha[i]| == 1
    ensures SimpleAroha(aroha) == aroha
  {
  }

  /** Kalyan-thaat notes (sharp Ma) read as Yaman; with natural Ma instead
      they read as Alhaiya Bilawal. */
  lemma MockExamples()
    ensures MockRagaName(["S", "R", "G", "M", "P", "D", "N"]) == "Raga Yaman"
    ensures MockRagaName(["S", "R", "G", "m", "P", "D", "N"]) == "Raga Alhaiya Bilawal"
  {
    YamanExample(["S", "R", "G", "M", "P", "D", "N"]);
    BilawalExample(["S", "R", "G", "m", "P", "D", "N"]);
  }

  /** The Kalyan-thaat scale is named Yaman. */
  lemma YamanExample(aroha: seq<string>)
    requires aroha == ["S", "R", "G", "M", "P", "D", "N"]
    ensures MockRagaName(aroha) == "Raga Yaman"
  {
    SimpleMiddle(aroha);
    ReadsAsYaman(SimpleAroha(aroha));
  }

  /** The same scale with natural Ma is named Alhaiya Bilawal. */
  lemma BilawalExample(aroha: seq<string>)
    requires aroha == ["S", "R", "G", "m", "P", "D", "N"]
    ensures MockRagaName(aroha) == "Raga Alhaiya Bilawal"
  {
    SimpleMiddle(aroha);
    ReadsAsBilawal(SimpleAroha(aroha));
  }

  /** M, N and R all occur in the stripped Kalyan-thaat scale. */
  lemma ReadsAsYaman(simple: seq<string>)
    requires simple == ["S", "R", "G", "M", "P", "D", "N"]
    ensures LooksLikeYaman(simple)
  {
    assert simple[1] == "R" && simple[3] == "M" && simple[6] == "N";
  }

  /** Without sharp Ma the Yaman test fails and R, G, D and N all occur. */
  lemma ReadsAsBilawal(simple: seq<string>)
    requires simple == ["S", "R", "G", "m", "P", "D", "N"]
    ensures !LooksLikeYaman(simple) && LooksLikeBilawal(simple)
  {
    assert simple[1] == "R" && simple[2] == "G" && simple[5] == "D" && simple[6] == "N";
    assert forall i :: 0 <= i < |simple| ==> simple[i] != "M";
  }

  // ---------------------------------------------------------------------
  // Choosing and cleaning the model's text

  /** A part worth parsing: text present, not blank, not a bare fence, and
      holding both an opening and a closing brace. */
  predicate Qualifies(p: Part) {
    && p.text.Some?
    && |p.text.value| > 0
    && Trim(p.text.value) != ""
    && Trim(p.text.value) != "```"
    && '{' in p.text.value && '}' in p.text.value
  }

  /** The blank and bare-fence checks never reject a text with braces: a part
      qualifies exactly when its text holds both braces. */
  lemma QualifiesIffBraces(p: Part)
    ensures Qualifies(p) <==> p.text.Some? && '{' in p.text.value && '}' in p.text.value
  {
    if p.text.Some? && '{' in p.text.value {
      var t := p.text.value;
      TrimKeeps(t, '{');
      assert multiset(t)['{'] > 0;
      assert '{' in Trim(t);
    }
  }

  /** Position of the first element satisfying `ok`, or -1: the loop with
      an early `break`. */
  function FirstWhere<T>(ok: T -> bool, xs: seq<T>): (k: int)
    ensures -1 <= k < |xs|
    ensures k >= 0 ==> ok(xs[k]) && forall j :: 0 <= j < k ==> !ok(xs[j])
    ensures k == -1 <==> forall j :: 0 <= j < |xs| ==> !ok(xs[j])
  {
    if |xs| == 0 then -1
    else if ok(xs[0]) then 0
    else
      var k := FirstWhere(ok, xs[1..]);
      if k < 0 then -1 else k + 1
  }

  /** Position of the first qualifying part, or -1. */
  function FirstQualifying(parts: seq<Part>): (k: int)
    ensures -1 <= k < |parts|
    ensures k >= 0 ==> Qualifies(parts[k]) && forall j :: 0 <= j < k ==> !Qualifies(parts[j])
    ensures k == -1 <==> forall j :: 0 <= j < |parts| ==> !Qualifies(parts[j])
  {
    FirstWhere(p => Qualifies(p), parts)
  }

  /** The text the handler goes on with: that of the first qualifying part. */
  function SelectText(parts: seq<Part>): Option<string> {
    var k := FirstQualifying(parts);
    if k < 0 then None else Some(parts[k].text.value)
  }

  /** Once a part qualifies, parts after it are never looked at. */
  lemma LaterPartsIgnored(ps: seq<Part>, qs: seq<Part>)
    requires FirstQualifying(ps) >= 0
    ensures FirstQualifying(ps + qs) == FirstQualifying(ps)
    ensures SelectText(ps + qs) == SelectText(ps)
  {
    var k := FirstQualifying(ps);
    var both := ps + qs;
    assert forall j :: 0 <= j <= k ==> both[j] == ps[j];
    assert Qualifies(both[k]);
    var k2 := FirstQualifying(both);
    assert 0 <= k2 <= k;
    assert Qualifies(ps[k2]);
  }

  /** Removes every "```json" and then every "```", each with the whitespace after it. */
  function StripFences(t: string): string {
    StripMarker(StripMarker(t, "```json"), "```")
  }

  /** Fence stripping never removes or adds a brace. */
  lemma StripFencesKeepsBraces(t: string)
    ensures multiset(StripFences(t))['{'] == multiset(t)['{']
    ensures multiset(StripFences(t))['}'] == multiset(t)['}']
    ensures '{' in StripFences(t) <==> '{' in t
    ensures '}' in StripFences(t) <==> '}' in t
  {
    StripFencesKeeps(t, '{');
    StripFencesKeeps(t, '}');
  }

  /** Fence stripping keeps the count of any visible character outside the markers. */
  lemma StripFencesKeeps(t: string, c: char)
    requires !IsSpace(c) && c !in "```json"
    ensures multiset(StripFences(t))[c] == multiset(t)[c]
    ensures c in StripFences(t) <==> c in t
  {
    StripMarkerKeeps(t, "```json", c);
    StripMarkerKeeps(StripMarker(t, "```json"), "```", c);
  }

  /** No "```" is left after fence stripping, so neither fence form survives. */
  lemma StripFencesRemovesFences(t: string)
    ensures forall i :: !OccursAt(StripFences(t), "```", i)
  {
    NoFenceLeft(StripMarker(t, "```json"));
  }

  /** A reply without a backtick passes fence stripping unchanged. */
  lemma StripFencesPlain(t: string)
    requires '`' !in t
    ensures StripFences(t) == t
  {
    StripMarkerAbsent(t, "```json");
    StripMarkerAbsent(t, "```");
  }

  /** A closing fence that does not open a "```json" one is not touched by the
      first replace. */
  lemma CloseSurvivesFirstPass(post: string)
    requires '`' !in post && !("json" <= post)
    ensures StripMarker("```" + post, "```json") == "```" + post
  {
    var m, p1, p2, p3 := "```json", "`" + post, "``" + post, "```" + post;
    StripMarkerAbsent(post, m);
    NotPrefixAt(p1, m, 1);
    assert p1[1..] == post;
    StripMarkerSkip(p1, m);
    NotPrefixAt(p2, m, 2);
    assert p2[1..] == p1;
    StripMarkerSkip(p2, m);
    NoOpenAtClose(post);
    assert p3[1..] == p2;
    StripMarkerSkip(p3, m);
  }

  /** A text that differs from the marker at some position does not start with it. */
  lemma NotPrefixAt(s: string, marker: string, k: nat)
    requires k < |marker| && (k >= |s| || s[k] != marker[k])
    ensures !(marker <= s)
  {
  }

  /** A closing fence opens a "```json" one only when "json" follows it. */
  lemma NoOpenAtClose(post: string)
    requires !("json" <= post)
    ensures !("```json" <= "```" + post)
  {
    var s := "```" + post;
    if |post| < 4 {
      NotPrefixAt(s, "```json", 6);
    } else {
      assert post[..4] != "json";
      var k :| 0 <= k < 4 && post[k] != "json"[k];
      assert s[3 + k] == post[k];
      NotPrefixAt(s, "```json", 3 + k);
    }
  }

  /** A payload fenced as "```json" ... "```" survives verbatim and in order:
      both fences go, each with the whitespace after it, and the text before
      the opening fence and after the closing one is kept. */
  lemma FencedPayloadKept(pre: string, ws: string, body: string, post: string)
    requires '`' !in pre && '`' !in body && '`' !in post && !("json" <= post)
    requires forall i :: 0 <= i < |ws| ==> IsSpace(ws[i])
    requires |body| > 0 && !IsSpace(body[0])
    ensures StripFences(pre + "```json" + ws + body + "```" + post) == pre + body + TrimStart(post)
  {
    var close := "```" + post;
    var t := pre + "```json" + ws + body + "```" + post;
    assert t == pre + ("```json" + ws + (body + close));
    StripMarkerPrefix(pre, "```json" + ws + (body + close), "```json");
    StripMarkerAtStart(ws, body + close, "```json");
    StripMarkerPrefix(body, close, "```json");
    CloseSurvivesFirstPass(post);
    var once := (pre + body) + close;
    assert StripMarker(t, "```json") == once;
    StripMarkerPrefix(pre + body, close, "```");
    assert "```" <= close && close[3..] == post;
    assert StripMarker(close, "```") == StripMarker(TrimStart(post), "```");
    StripMarkerAbsent(TrimStart(post), "```");
  }

  /** A JSON object in a "```json" fence, with prose around it that holds no
      brace, is handed to the parser as exactly that object. */
  lemma FencedObjectSanitized(pre: string, ws: string, obj: string, tail: string, post: string)
    requires '`' !in pre && '`' !in obj && '`' !in tail && '`' !in post && !("json" <= post)
    requires '{' !in pre && '}' !in tail && '}' !in post
    requires forall i :: 0 <= i < |ws| ==> IsSpace(ws[i])
    requires |obj| > 0 && obj[0] == '{' && obj[|obj| - 1] == '}'
    ensures Sanitize(pre + "```json" + ws + obj + tail + "```" + post) == obj
  {
    var t := pre + "```json" + ws + obj + tail + "```" + post;
    assert t == pre + "```json" + ws + (obj + tail) + "```" + post;
    FencedPayloadKept(pre, ws, obj + tail, post);
    var after := TrimStart(post);
    assert '}' !in after;
    var c := pre + (obj + tail) + after;
    assert StripFences(t) == c;
    assert c == pre + (obj + (tail + after));
    IndexOfAfter(pre, obj + (tail + after), '{');
    assert c == (pre + obj) + (tail + after);
    LastIndexOfBefore(pre + obj, tail + after, '}');
    assert c[|pre|] == '{' && c[|pre| + |obj| - 1] == '}';
    SliceTaken(c, t);
    SliceInOrder(c, |pre|, |pre| + |obj| - 1);
    assert c[|pre|..|pre| + |obj|] == obj;
  }

  /** The reply shape the system prompt guards against: prose, a fenced
      object, more prose. */
  lemma FencedReplyExample()
    ensures Sanitize("Here is the result:\n```json\n{\"a\":1}\n```\nThanks") == "{\"a\":1}"
  {
    var pre, ws, obj, tail, post := "Here is the result:\n", "\n", "{\"a\":1}", "\n", "\nThanks";
    ExampleReplyPieces(pre, ws, obj, tail, post);
    FencedObjectSanitized(pre, ws, obj, tail, post);
  }

  /** The example reply cut at its fences, with each piece meeting the
      conditions of `FencedObjectSanitized`. */
  lemma ExampleReplyPieces(pre: string, ws: string, obj: string, tail: string, post: string)
    requires pre == "Here is the result:\n" && ws == "\n" && obj == "{\"a\":1}"
    requires tail == "\n" && post == "\nThanks"
    ensures pre + "```json" + ws + obj + tail + "```" + post
      == "Here is the result:\n```json\n{\"a\":1}\n```\nThanks"
    ensures '`' !in pre && '{' !in pre && '`' !in post && '}' !in post && !("json" <= post)
    ensures '`' !in obj && '`' !in tail && '}' !in tail
  {
    assert post[0] == '\n';
    assert forall i :: 0 <= i < |pre| ==> pre[i] != '`' && pre[i] != '{';
    assert forall i :: 0 <= i < |post| ==> post[i] != '`' && post[i] != '}';
    assert forall i :: 0 <= i < |obj| ==> obj[i] != '`';
  }

  /** `t.match(/\{[\s\S]*\}/)`: the span from the first '{' to the last '}'
      after it, when there is one. */
  function FallbackMatch(t: string): (r: Option<string>)
    ensures r.Some? ==> |r.value| >= 2 && r.value[0] == '{' && r.value[|r.value| - 1] == '}'
    ensures r.Some? ==>
      0 <= IndexOf(t, '{') < LastIndexOf(t, '}') && r.value == t[IndexOf(t, '{')..LastIndexOf(t, '}') + 1]
    ensures r.None? <==> !exists i, j :: 0 <= i < j < |t| && t[i] == '{' && t[j] == '}'
  {
    var i := IndexOf(t, '{');
    var j := LastIndexOf(t, '}');
    if i >= 0 && j > i then
      Some(t[i..j + 1])
    else
      assert forall a, b :: 0 <= a < b < |t| && t[a] == '{' && t[b] == '}' ==> i <= a && b <= j;
      None
  }

  /** Slices the stripped text from its first '{' to its last '}' with
      `substring`, falling back to the regular-expression match on the
      unstripped text when a brace is missing. */
  function ExtractJson(cleaned: string, original: string): string {
    var first := IndexOf(cleaned, '{');
    var last := LastIndexOf(cleaned, '}');
    if first != -1 && last != -1 then JsSubstring(cleaned, first, last + 1)
    else
      match FallbackMatch(original)
      case Some(m) => m
      case None => cleaned
  }

  /** The text handed to `JSON.parse`. */
  function Sanitize(text: string): string {
    ExtractJson(StripFences(text), text)
  }

  /** With both braces present, the `substring` branch is the one taken. */
  lemma SliceTaken(c: string, original: string)
    requires '{' in c && '}' in c
    ensures ExtractJson(c, original) == JsSubstring(c, IndexOf(c, '{'), LastIndexOf(c, '}') + 1)
  {
  }

  /** On the text chosen from the reply both braces survive fence stripping,
      so the regular-expression fallback never runs: the parser gets the
      `substring` of the stripped text from its first '{' to just after its
      last '}'. */
  lemma SanitizeSpan(parts: seq<Part>, t: string)
    requires SelectText(parts) == Some(t)
    ensures '{' in StripFences(t) && '}' in StripFences(t)
    ensures Sanitize(t) == JsSubstring(StripFences(t), IndexOf(StripFences(t), '{'), LastIndexOf(StripFences(t), '}') + 1)
  {
    SelectedHasBraces(parts, t);
    SanitizeBraces(t);
  }

  /** The chosen text holds both braces. */
  lemma SelectedHasBraces(parts: seq<Part>, t: string)
    requires SelectText(parts) == Some(t)
    ensures '{' in t && '}' in t
  {
    assert Qualifies(parts[FirstQualifying(parts)]);
  }

  /** A text with both braces keeps them through fence stripping and is sliced with `substring`. */
  lemma SanitizeBraces(t: string)
    requires '{' in t && '}' in t
    ensures '{' in StripFences(t) && '}' in StripFences(t)
    ensures Sanitize(t) == JsSubstring(StripFences(t), IndexOf(StripFences(t), '{'), LastIndexOf(StripFences(t), '}') + 1)
  {
    StripFencesKeepsBraces(t);
    SliceTaken(StripFences(t), t);
  }

  /** When the first '{' comes no later than the last '}', the slice is the
      inclusive span between them. */
  lemma BraceSpanInOrder(c: string, first: int, last: int)
    requires '{' in c && '}' in c
    requires first == IndexOf(c, '{') && last == LastIndexOf(c, '}') && first <= last
    ensures 0 <= first <= last < |c|
    ensures JsSubstring(c, first, last + 1) == c[first..last + 1]
    ensures c[first] == '{' && c[last] == '}'
  {
    SliceInOrder(c, first, last);
  }

  /** In-range, ordered bounds make `substring` a plain inclusive slice. */
  lemma SliceInOrder(c: string, first: int, last: int)
    requires 0 <= first <= last < |c|
    ensures JsSubstring(c, first, last + 1) == c[first..last + 1]
  {
  }

  /** When the last '}' comes before the first '{', `substring` swaps its
      arguments and the slice, lying between the two, holds no brace at all. */
  lemma BraceSpanCrossed(c: string, first: int, last: int)
    requires '{' in c && '}' in c
    requires first == IndexOf(c, '{') && last == LastIndexOf(c, '}') && last < first
    ensures 0 <= last + 1 <= first < |c|
    ensures JsSubstring(c, first, last + 1) == c[last + 1..first]
    ensures '{' !in c[last + 1..first] && '}' !in c[last + 1..first]
  {
    var r := c[last + 1..first];
    assert r == c[..first][last + 1..];
    assert r == c[last + 1..][..first - last - 1];
  }

  // ---------------------------------------------------------------------
  // Enrichment and the handler

  /** The `_debug` record added to every model answer. */
  function Debug(fullPrompt: string, rawResponse: string, youtubeApiUsed: bool): Json {
    JObj(map[
      "fullPrompt" := JStr(fullPrompt),
      "rawResponse" := JStr(rawResponse),
      "modelUsed" := JStr("gemini-2.0-flash"),
      "youtubeApiUsed" := JBool(youtubeApiUsed)
    ])
  }

  /** The parsed object after enrichment: a non-empty video list replaces
      `youtubeLinks`, an empty one leaves it alone, `_debug` is set, and no
      other field changes. */
  function Merge(fields: map<string, Json>, videos: seq<Link>, debug: Json): (r: map<string, Json>)
    ensures forall k :: k != "youtubeLinks" && k != "_debug" ==>
      (k in r <==> k in fields) && (k in fields ==> r[k] == fields[k])
    ensures |videos| > 0 ==> "youtubeLinks" in r && r["youtubeLinks"] == JArr(LinksJson(videos))
    ensures |videos| == 0 ==> ("youtubeLinks" in r <==> "youtubeLinks" in fields)
    ensures |videos| == 0 && "youtubeLinks" in fields ==> r["youtubeLinks"] == fields["youtubeLinks"]
    ensures "_debug" in r && r["_debug"] == debug
  {
    var withLinks := if |videos| > 0 then fields["youtubeLinks" := JArr(LinksJson(videos))] else fields;
    withLinks["_debug" := debug]
  }

  /** Property writes on the parsed value: an object is enriched; an array
      accepts them but serialises without them; `null` and primitives throw
      in strict mode. */
  function Enrich(result: Json, videos: seq<Link>, debug: Json): (r: Response)
    ensures r.Ok? <==> result.JObj? || result.JArr?
    ensures r.Err? ==> r == InternalError
    ensures r.Ok? && !result.JObj? ==> r.body == result
    ensures result.JObj? ==> r.Ok? && r.body.JObj? && "_debug" in r.body.fields && r.body.fields["_debug"] == debug
    ensures result.JObj? ==> forall k :: k in result.fields && k != "youtubeLinks" && k != "_debug" ==>
      k in r.body.fields && r.body.fields[k] == result.fields[k]
  {
    match result
    case JObj(fields) => Ok(JObj(Merge(fields, videos, debug)))
    case JArr(_) => Ok(result)
    case _ => InternalError
  }

  /** The model path: choose a part, clean it, parse it, enrich it. */
  function Answer(fullPrompt: string, reply: Reply, parse: string -> Option<Json>, videos: seq<Link>): (r: Response)
    ensures r.Err? ==> r == InternalError
  {
    match reply
    case Failed => InternalError
    case Parts(parts) =>
      match SelectText(parts)
      case None => InternalError
      case Some(text) =>
        match parse(Sanitize(text))
        case None => InternalError
        case Some(result) => Enrich(result, videos, Debug(fullPrompt, text, |videos| > 0))
  }

  /** The handler. Every exception inside it ends in the catch-all 500. */
  function Handle(req: Request, cfg: Config, reply: Reply, parse: string -> Option<Json>, videos: seq<Link>): (r: Response)
    ensures r == MissingInput <==> req.Body? && (!Truthy(req.aroha) || !Truthy(req.avaroha))
    ensures r.Err? ==> r == MissingInput || r == InternalError
    ensures r.Ok? ==> req.Body? && req.aroha.Ids? && req.avaroha.Ids?
  {
    assert MissingInput.status != InternalError.status;
    match req
    case Unreadable => InternalError
    case Body(aroha, avaroha) =>
      if !Truthy(aroha) || !Truthy(avaroha) then MissingInput
      else if !aroha.Ids? || !avaroha.Ids? then InternalError
      else
        var prompt := UserPrompt(aroha.items, avaroha.items);
        if KeyMissing(cfg.apiKey) then Ok(MockBody(aroha.items))
        else Answer(cfg.systemPrompt + "\n\n" + prompt, reply, parse, videos)
  }

  /** Without a key the placeholder is returned, whatever array the avaroha
      is, and whatever the model's reply, the parser and the video search would have said. */
  lemma MockIgnoresEverythingElse(aroha: seq<string>, avaroha: Field, cfg: Config,
                                  reply: Reply, parse: string -> Option<Json>, videos: seq<Link>)
    requires KeyMissing(cfg.apiKey) && avaroha.Ids?
    ensures Handle(Body(Ids(aroha), avaroha), cfg, reply, parse, videos) == Ok(MockBody(aroha))
    ensures MockBody(aroha).fields["confidence"] == JStr("Low (Mock)")
  {
  }

  /** With a key, no part holding both braces means a 500. */
  lemma NoUsablePartFails(aroha: seq<string>, avaroha: seq<string>, cfg: Config,
                          parts: seq<Part>, parse: string -> Option<Json>, videos: seq<Link>)
    requires !KeyMissing(cfg.apiKey)
    requires forall j :: 0 <= j < |parts| ==> parts[j].text.None? || '{' !in parts[j].text.value || '}' !in parts[j].text.value
    ensures Handle(Body(Ids(aroha), Ids(avaroha)), cfg, Parts(parts), parse, videos) == InternalError
  {
    forall j | 0 <= j < |parts|
      ensures !Qualifies(parts[j])
    {
      QualifiesIffBraces(parts[j]);
    }
  }

  /** With a key, text that does not parse means a 500 and never a partial result. */
  lemma ParseFailureFails(aroha: seq<string>, avaroha: seq<string>, cfg: Config,
                          parts: seq<Part>, parse: string -> Option<Json>, videos: seq<Link>)
    requires !KeyMissing(cfg.apiKey)
    requires SelectText(parts).Some? && parse(Sanitize(SelectText(parts).value)).None?
    ensures Handle(Body(Ids(aroha), Ids(avaroha)), cfg, Parts(parts), parse, videos) == InternalError
  {
  }

  /** With a key, the user prompt reaches the answer only through `_debug`'s
      full prompt: the system prompt, a blank line, then the user prompt. */
  lemma HandleWithKey(aroha: seq<string>, avaroha: seq<string>, cfg: Config,
                      reply: Reply, parse: string -> Option<Json>, videos: seq<Link>)
    requires !KeyMissing(cfg.apiKey)
    ensures Handle(Body(Ids(aroha), Ids(avaroha)), cfg, reply, parse, videos)
         == Answer(cfg.systemPrompt + "\n\n" + UserPrompt(aroha, avaroha), reply, parse, videos)
  {
  }

  /** With a key and an object parsed from the chosen text, the answer is that
      object with `youtubeLinks` replaced exactly when videos were found, and
      `_debug` recording the full prompt, the raw text and whether videos were found. */
  lemma EnrichedAnswer(aroha: seq<string>, avaroha: seq<string>, cfg: Config,
                       parts: seq<Part>, parse: string -> Option<Json>, videos: seq<Link>)
    requires !KeyMissing(cfg.apiKey)
    requires SelectText(parts).Some? && parse(Sanitize(SelectText(parts).value)).Some?
    requires parse(Sanitize(SelectText(parts).value)).value.JObj?
    ensures var fields := parse(Sanitize(SelectText(parts).value)).value.fields;
      var r := Handle(Body(Ids(aroha), Ids(avaroha)), cfg, Parts(parts), parse, videos);
      && r.Ok? && r.body.JObj?
      && "_debug" in r.body.fields
      && r.body.fields["_debug"] == Debug(cfg.systemPrompt + "\n\n" + UserPrompt(aroha, avaroha), SelectText(parts).value, |videos| > 0)
      && (|videos| > 0 ==> "youtubeLinks" in r.body.fields && r.body.fields["youtubeLinks"] == JArr(LinksJson(videos)))
      && (|videos| == 0 && "youtubeLinks" in fields ==>
            "youtubeLinks" in r.body.fields && r.body.fields["youtubeLinks"] == fields["youtubeLinks"])
      && (forall k :: k != "youtubeLinks" && k != "_debug" && k in fields ==> k in r.body.fields && r.body.fields[k] == fields[k])
      && r == Ok(JObj(Merge(fields, videos, Debug(cfg.systemPrompt + "\n\n" + UserPrompt(aroha, avaroha), SelectText(parts).value, |videos| > 0))))
  {
    var text := SelectText(parts).value;
    var result := parse(Sanitize(text)).value;
    var full := cfg.systemPrompt + "\n\n" + UserPrompt(aroha, avaroha);
    var debug := Debug(full, text, |videos| > 0);
    HandleWithKey(aroha, avaroha, cfg, Parts(parts), parse, videos);
    assert Answer(full, Parts(parts), parse, videos) == Enrich(result, videos, debug);
    assert Enrich(result, videos, debug) == Ok(JObj(Merge(result.fields, videos, debug)));
  }

  /** With a key, a parsed array is answered unchanged (the property writes
      are dropped when it is serialised), and a parsed `null`, boolean,
      number or string gives a 500, since writing a property on it throws. */
  lemma NonObjectAnswer(aroha: seq<string>, avaroha: seq<string>, cfg: Config,
                        parts: seq<Part>, parse: string -> Option<Json>, videos: seq<Link>)
    requires !KeyMissing(cfg.apiKey)
    requires SelectText(parts).Some? && parse(Sanitize(SelectText(parts).value)).Some?
    requires !parse(Sanitize(SelectText(parts).value)).value.JObj?
    ensures var result := parse(Sanitize(SelectText(parts).value)).value;
      var r := Handle(Body(Ids(aroha), Ids(avaroha)), cfg, Parts(parts), parse, videos);
      && (result.JArr? ==> r == Ok(result))
      && (!result.JArr? ==> r == InternalError)
  {
    HandleWithKey(aroha, avaroha, cfg, Parts(parts), parse, videos);
  }
}
