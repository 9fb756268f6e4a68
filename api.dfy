/**
 * The development server's API middleware (vite-plugin-api.js): the word
 * store behind `/api/words`, the reply of `/api/convert` and the decisions of
 * the `/api/tts` proxy. The JSON file is the `words` field of a store object;
 * file and network I/O, kuroshiro and the clock are parameters.
 */
module Api {
  import opened Wrappers
  import opened Text
  import opened Seqs
  import opened Japanese

  // ---------------------------------------------------------------------------
  // Route parsing

  /** `url.split("/")`: the pieces between the slashes, one more than there are slashes. */
  function Split(url: string): (pieces: seq<string>)
    ensures |pieces| >= 1
    ensures forall i :: 0 <= i < |pieces| ==> '/' !in pieces[i]
  {
    if url == [] then [""]
    else
      var init := Split(url[..|url| - 1]);
      var c := url[|url| - 1];
      if c == '/' then init + [""]
      else init[..|init| - 1] + [init[|init| - 1] + [c]]
  }

  /** `pieces.join("/")`. */
  function Join(pieces: seq<string>): string
    requires |pieces| >= 1
  {
    if |pieces| == 1 then pieces[0]
    else Join(pieces[..|pieces| - 1]) + "/" + pieces[|pieces| - 1]
  }

  /** Extending the last piece by a character extends the joined string by it. */
  lemma JoinExtendLast(pieces: seq<string>, c: char)
    requires |pieces| >= 1
    ensures Join(pieces[..|pieces| - 1] + [pieces[|pieces| - 1] + [c]]) == Join(pieces) + [c]
  {
    var longer := pieces[..|pieces| - 1] + [pieces[|pieces| - 1] + [c]];
    if |pieces| > 1 {
      assert longer[..|longer| - 1] == pieces[..|pieces| - 1];
      calc {
        Join(longer);
        Join(pieces[..|pieces| - 1]) + "/" + (pieces[|pieces| - 1] + [c]);
        (Join(pieces[..|pieces| - 1]) + "/" + pieces[|pieces| - 1]) + [c];
      }
    }
  }

  /** Splitting loses nothing: joining the pieces gives the url back. */
  lemma {:induction false} SplitJoin(url: string)
    ensures Join(Split(url)) == url
  {
    if url != [] {
      var u := url[..|url| - 1];
      SplitJoin(u);
      assert url == u + [url[|url| - 1]];
      if url[|url| - 1] != '/' {
        JoinExtendLast(Split(u), url[|url| - 1]);
      } else {
        var init := Split(u);
        assert (init + [""])[..|init|] == init;
      }
    }
  }

  /** Joining slash-free pieces and splitting again gives the pieces back. */
  lemma {:induction false} JoinSplit(pieces: seq<string>)
    requires |pieces| >= 1
    requires forall i :: 0 <= i < |pieces| ==> '/' !in pieces[i]
    ensures Split(Join(pieces)) == pieces
    decreases |pieces|, |pieces[|pieces| - 1]|
  {
    var last := pieces[|pieces| - 1];
    if last == [] {
      if |pieces| > 1 {
        var init := pieces[..|pieces| - 1];
        JoinSplit(init);
        var j := Join(pieces);
        assert j == Join(init) + "/";
        assert j[..|j| - 1] == Join(init);
        assert pieces == init + [""];
      }
    } else {
      var c := last[|last| - 1];
      var shorter := pieces[..|pieces| - 1] + [last[..|last| - 1]];
      assert shorter[..|shorter| - 1] == pieces[..|pieces| - 1];
      assert last[..|last| - 1] + [c] == last;
      assert pieces == shorter[..|shorter| - 1] + [shorter[|shorter| - 1] + [c]];
      JoinSplit(shorter);
      JoinExtendLast(shorter, c);
      var j := Join(pieces);
      assert c != '/';
      assert j[..|j| - 1] == Join(shorter);
    }
  }

  predicate NonEmpty(piece: string) {
    piece != []
  }

  /** `req.url.split("/").filter(Boolean)`. */
  function Segments(url: string): seq<string> {
    Filter(Split(url), NonEmpty)
  }

  /** The last non-empty segment, or null when there is none. */
  function RouteId(url: string): Option<string> {
    var segments := Segments(url);
    if segments == [] then None else Some(segments[|segments| - 1])
  }

  /** `id && id !== "words"`. */
  predicate IsIdRoute(url: string) {
    RouteId(url).Some? && RouteId(url).value != "words"
  }

  predicate AllSlashes(s: string) {
    forall i :: 0 <= i < |s| ==> s[i] == '/'
  }

  /** `x` is a non-empty slash-free piece of `url` at `k`, after a slash or at the start, followed only by slashes. */
  predicate LastSegmentAt(url: string, k: int, x: string) {
    && 0 <= k && k + |x| <= |url|
    && x != [] && '/' !in x
    && url[k..k + |x|] == x
    && (k == 0 || url[k - 1] == '/')
    && AllSlashes(url[k + |x|..])
  }

  /** The piece after the last slash. */
  function LastPiece(url: string): string {
    Split(url)[|Split(url)| - 1]
  }

  /** The last piece of the split is everything after the last slash. */
  lemma {:induction false} LastPieceIsSuffix(url: string)
    ensures |LastPiece(url)| <= |url|
    ensures url[|url| - |LastPiece(url)|..] == LastPiece(url)
    ensures |LastPiece(url)| == |url| || url[|url| - |LastPiece(url)| - 1] == '/'
  {
    if url != [] && url[|url| - 1] != '/' {
      var u := url[..|url| - 1];
      var c := url[|url| - 1];
      LastPieceIsSuffix(u);
      var q := LastPiece(u);
      assert LastPiece(url) == q + [c];
      assert url == u + [c];
      assert url[|url| - |q| - 1..] == u[|u| - |q|..] + [c];
    }
  }

  /** There is no route id exactly when the url holds nothing but slashes. */
  lemma {:induction false} RouteIdNone(url: string)
    ensures RouteId(url).None? <==> AllSlashes(url)
  {
    if url != [] {
      var u := url[..|url| - 1];
      if url[|url| - 1] == '/' {
        RouteIdTrailingSlash(url);
        RouteIdNone(u);
        AllSlashesTrailing(url);
      } else {
        RouteIdAfterLetter(url);
        assert !AllSlashes(url) by { assert url[|url| - 1] != '/'; }
      }
    }
  }

  lemma AllSlashesTrailing(url: string)
    requires url != [] && url[|url| - 1] == '/'
    ensures AllSlashes(url) <==> AllSlashes(url[..|url| - 1])
  {
    if AllSlashes(url[..|url| - 1]) {
      forall i | 0 <= i < |url| ensures url[i] == '/' {
        if i < |url| - 1 {
          assert url[i] == url[..|url| - 1][i];
        }
      }
    }
  }

  lemma RouteIdTrailingSlash(url: string)
    requires url != [] && url[|url| - 1] == '/'
    ensures RouteId(url) == RouteId(url[..|url| - 1])
  {
    FilterAppend(Split(url[..|url| - 1]), [""], NonEmpty);
  }

  lemma RouteIdAfterLetter(url: string)
    requires url != [] && url[|url| - 1] != '/'
    ensures RouteId(url) == Some(LastPiece(url))
  {
    var init := Split(url[..|url| - 1]);
    var last := init[|init| - 1] + [url[|url| - 1]];
    assert Split(url) == init[..|init| - 1] + [last];
    FilterAppend(init[..|init| - 1], [last], NonEmpty);
  }

  lemma LastSegmentThenSlash(u: string, k: int, x: string)
    requires LastSegmentAt(u, k, x)
    ensures LastSegmentAt(u + "/", k, x)
  {
    var url := u + "/";
    assert url[k..k + |x|] == u[k..k + |x|];
    assert url[k + |x|..] == u[k + |x|..] + "/";
  }

  /** The route id is the last non-empty slash-free segment of the url. */
  lemma {:induction false} RouteIdIsLastSegment(url: string)
    requires RouteId(url).Some?
    ensures exists k :: LastSegmentAt(url, k, RouteId(url).value)
  {
    var u := url[..|url| - 1];
    var x := RouteId(url).value;
    if url[|url| - 1] == '/' {
      RouteIdTrailingSlash(url);
      RouteIdIsLastSegment(u);
      var k :| LastSegmentAt(u, k, x);
      LastSegmentThenSlash(u, k, x);
      assert u + "/" == url;
    } else {
      RouteIdAfterLetter(url);
      LastPieceIsSuffix(url);
      var k := |url| - |x|;
      assert url[k..k + |x|] == x;
      assert '/' !in x;
      assert LastSegmentAt(url, k, x);
    }
  }

  // ---------------------------------------------------------------------------
  // Word records

  /**
   * A JSON value as the handlers see it. Numbers are integers (ids and
   * timestamps); arrays and objects are `Composite`, which is never equal to
   * a string.
   */
  datatype Value = Null | Bool(b: bool) | Num(n: int) | Str(s: string) | Composite

  /** A stored word: a JSON object from field name to value. */
  type Record = map<string, Value>

  /** JavaScript truthiness of a value. */
  predicate TruthyValue(v: Value) {
    match v
    case Null => false
    case Bool(b) => b
    case Num(n) => n != 0
    case Str(s) => s != ""
    case Composite => true
  }

  /** Truthiness of a field read (`record.field`), an absent field being `undefined`. */
  predicate Truthy(r: Record, field: string) {
    field in r && TruthyValue(r[field])
  }

  /**
   * POST's completion of the body: `id` keeps a truthy value or becomes the
   * clock reading `nowId` as a decimal string, `createdAt` keeps a truthy
   * value or becomes the later clock reading `nowCreated`; nothing else
   * changes. The two readings are separate calls to the clock.
   */
  function WithDefaults(body: Record, nowId: nat, nowCreated: nat): (r: Record)
    ensures r.Keys == body.Keys + {"id", "createdAt"}
    ensures forall k :: k in body && k != "id" && k != "createdAt" ==> r[k] == body[k]
    ensures Truthy(body, "id") ==> r["id"] == body["id"]
    ensures !Truthy(body, "id") ==> r["id"] == Str(NatToString(nowId))
    ensures Truthy(body, "createdAt") ==> r["createdAt"] == body["createdAt"]
    ensures !Truthy(body, "createdAt") ==> r["createdAt"] == Num(nowCreated)
  {
    var withId := body["id" := if Truthy(body, "id") then body["id"] else Str(NatToString(nowId))];
    withId["createdAt" := if Truthy(body, "createdAt") then body["createdAt"] else Num(nowCreated)]
  }

  /** After POST the record always has a truthy id, and a truthy timestamp whenever the clock is past zero. */
  lemma WithDefaultsTruthy(body: Record, nowId: nat, nowCreated: nat)
    ensures Truthy(WithDefaults(body, nowId, nowCreated), "id")
    ensures nowCreated > 0 ==> Truthy(WithDefaults(body, nowId, nowCreated), "createdAt")
  {
    var r := WithDefaults(body, nowId, nowCreated);
    if !Truthy(body, "id") {
      assert r["id"] == Str(NatToString(nowId));
    }
  }

  /** A body that already carries a truthy id and timestamp is stored exactly as sent. */
  lemma WithDefaultsKeepsComplete(body: Record, nowId: nat, nowCreated: nat)
    requires Truthy(body, "id") && Truthy(body, "createdAt")
    ensures WithDefaults(body, nowId, nowCreated) == body
  {
    var r := WithDefaults(body, nowId, nowCreated);
    assert r.Keys == body.Keys;
    forall k | k in r ensures r[k] == body[k] { }
  }

  /** Completing a completed record again changes nothing, whatever the clock says then. */
  lemma WithDefaultsStable(body: Record, nowId: nat, nowCreated: nat, laterId: nat, laterCreated: nat)
    requires nowCreated > 0
    ensures WithDefaults(WithDefaults(body, nowId, nowCreated), laterId, laterCreated) == WithDefaults(body, nowId, nowCreated)
  {
    WithDefaultsTruthy(body, nowId, nowCreated);
    WithDefaultsKeepsComplete(WithDefaults(body, nowId, nowCreated), laterId, laterCreated);
  }

  /** `word.id === id` for the route id, a string. */
  predicate HasId(word: Record, id: string) {
    "id" in word && word["id"] == Str(id)
  }

  /** DELETE's `words.filter((word) => word.id !== id)`. */
  function WithoutId(words: seq<Record>, id: string): seq<Record> {
    Filter(words, (w: Record) => !HasId(w, id))
  }

  /**
   * DELETE removes every record with the id and nothing else: the rest keep
   * their order and their number of occurrences; when no record has the id
   * the list is unchanged.
   */
  lemma WithoutIdSpec(words: seq<Record>, id: string)
    ensures forall i :: 0 <= i < |WithoutId(words, id)| ==> !HasId(WithoutId(words, id)[i], id)
    ensures IsSubsequence(WithoutId(words, id), words)
    ensures forall w :: multiset(WithoutId(words, id))[w] == if HasId(w, id) then 0 else multiset(words)[w]
    ensures (forall i :: 0 <= i < |words| ==> !HasId(words[i], id)) ==> WithoutId(words, id) == words
  {
    var p := (w: Record) => !HasId(w, id);
    FilterSubsequence(words, p);
    WithoutIdCount(words, id);
    if forall i :: 0 <= i < |words| ==> !HasId(words[i], id) {
      FilterAll(words, p);
    }
  }

  lemma WithoutIdCount(words: seq<Record>, id: string)
    ensures forall w :: multiset(WithoutId(words, id))[w] == if HasId(w, id) then 0 else multiset(words)[w]
  {
    var p := (w: Record) => !HasId(w, id);
    FilterCount(words, p);
    forall w ensures multiset(WithoutId(words, id))[w] == if HasId(w, id) then 0 else multiset(words)[w] {
      assert p(w) == !HasId(w, id);
    }
  }

  /** PUT's `words.findIndex((word) => word.id === id)`, None standing for -1. */
  function FirstIndex(words: seq<Record>, id: string): (r: Option<nat>)
    ensures r.Some? ==> r.value < |words| && HasId(words[r.value], id)
    ensures r.Some? ==> forall j :: 0 <= j < r.value ==> !HasId(words[j], id)
    ensures r.None? ==> forall j :: 0 <= j < |words| ==> !HasId(words[j], id)
  {
    if words == [] then None
    else if HasId(words[0], id) then Some(0)
    else
      match FirstIndex(words[1..], id)
      case None => None
      case Some(i) => Some(i + 1)
  }

  /** `{ ...stored, ...body }`: the body's fields override, the stored record's other fields stay. */
  function Merged(stored: Record, body: Record): (r: Record)
    ensures r.Keys == stored.Keys + body.Keys
    ensures forall k :: k in body ==> r[k] == body[k]
    ensures forall k :: k in stored && k !in body ==> r[k] == stored[k]
  {
    stored + body
  }

  /** Merging the same body twice is merging it once. */
  lemma MergedIdempotent(stored: Record, body: Record)
    ensures Merged(Merged(stored, body), body) == Merged(stored, body)
  {
    var once := Merged(stored, body);
    var twice := Merged(once, body);
    assert twice.Keys == once.Keys;
    forall k | k in twice ensures twice[k] == once[k] { }
  }

  /**
   * PUT on the stored list: when a record has the id, the first such record
   * becomes the merge of it and the body, and the list and the new record
   * are returned; otherwise None (the 404 case).
   */
  function UpdateFirst(words: seq<Record>, id: string, body: Record): Option<(seq<Record>, Record)> {
    match FirstIndex(words, id)
    case None => None
    case Some(i) => Some((words[i := Merged(words[i], body)], Merged(words[i], body)))
  }

  /**
   * PUT changes only the first record with the id, keeps the length and every
   * other record, and answers with the new record; it fails exactly when no
   * record has the id.
   */
  lemma UpdateFirstSpec(words: seq<Record>, id: string, body: Record)
    ensures UpdateFirst(words, id, body).None? <==> forall j :: 0 <= j < |words| ==> !HasId(words[j], id)
    ensures UpdateFirst(words, id, body).Some? ==>
      var (updated, reply) := UpdateFirst(words, id, body).value;
      && |updated| == |words|
      && (exists i :: 0 <= i < |words| && HasId(words[i], id)
            && (forall j :: 0 <= j < i ==> !HasId(words[j], id))
            && updated[i] == reply == Merged(words[i], body)
            && (forall j :: 0 <= j < |words| && j != i ==> updated[j] == words[j]))
  {
    match FirstIndex(words, id)
    case None =>
    case Some(i) =>
      var (updated, reply) := UpdateFirst(words, id, body).value;
      assert updated[i] == reply == Merged(words[i], body);
  }

  /** A body that leaves out `id` or repeats it keeps the record findable under the same id. */
  lemma UpdateKeepsId(words: seq<Record>, id: string, body: Record)
    requires UpdateFirst(words, id, body).Some?
    requires "id" !in body || body["id"] == Str(id)
    ensures HasId(UpdateFirst(words, id, body).value.1, id)
    ensures FirstIndex(UpdateFirst(words, id, body).value.0, id) == FirstIndex(words, id)
  {
    var i := FirstIndex(words, id).value;
    var updated := UpdateFirst(words, id, body).value.0;
    assert updated[i] == Merged(words[i], body);
    assert HasId(updated[i], id);
    SameFirstIndex(words, updated, id, i);
  }

  lemma {:induction false} SameFirstIndex(a: seq<Record>, b: seq<Record>, id: string, i: nat)
    requires |a| == |b| && i < |a|
    requires FirstIndex(a, id) == Some(i) && HasId(b[i], id)
    requires forall j :: 0 <= j < i ==> b[j] == a[j]
    ensures FirstIndex(b, id) == Some(i)
  {
    if i > 0 {
      assert !HasId(a[0], id);
      SameFirstIndex(a[1..], b[1..], id, i - 1);
    }
  }

  // ---------------------------------------------------------------------------
  // The /api/words middleware

  /** What the `/api/words` middleware answers. */
  datatype WordsReply =
    | AllWords(words: seq<Record>)   // GET: the stored list
    | Created(word: Record)          // POST: the record as stored
    | Deleted                        // DELETE: `{ success: true }`, whether or not a record matched
    | Updated(word: Record)          // PUT: the merged record
    | NotFound                       // PUT with an id no record has: 404
    | ServerError                    // 500: the body is not usable JSON
    | PassedOn                       // `next()`: no handler matched the method and route

  /**
   * The word store: the list the JSON file holds. A request body is given
   * parsed, None when the handler's `JSON.parse` or field assignment throws.
   */
  class WordStore {
    var words: seq<Record>

    /** The data file is created holding `[]` when it does not exist. */
    constructor ()
      ensures words == []
    {
      words := [];
    }

    /** POST: completes the body and appends it at the end; the reply is the stored record. */
    method Post(body: Record, nowId: nat, nowCreated: nat) returns (created: Record)
      modifies this
      ensures created == WithDefaults(body, nowId, nowCreated)
      ensures words == old(words) + [created]
    {
      created := WithDefaults(body, nowId, nowCreated);
      words := words + [created];
    }

    /** DELETE: drops every record with the id. */
    method Delete(id: string)
      modifies this
      ensures words == WithoutId(old(words), id)
    {
      words := WithoutId(words, id);
    }

    /** PUT: merges the body into the first record with the id; 404 when there is none. */
    method Put(id: string, body: Option<Record>) returns (reply: WordsReply)
      modifies this
      ensures FirstIndex(old(words), id).None? ==> reply == NotFound && words == old(words)
      ensures FirstIndex(old(words), id).Some? && body.None? ==> reply == ServerError && words == old(words)
      ensures body.Some? && UpdateFirst(old(words), id, body.value).Some? ==>
        var (updated, merged) := UpdateFirst(old(words), id, body.value).value;
        words == updated && reply == Updated(merged)
    {
      var index := FirstIndex(words, id);
      if index.None? {
        reply := NotFound;
      } else if body.None? {
        reply := ServerError;
      } else {
        var i := index.value;
        var merged := Merged(words[i], body.value);
        words := words[i := merged];
        reply := Updated(merged);
      }
    }

    /**
     * The middleware: GET and POST without an id route, DELETE and PUT with
     * one; anything else is passed on untouched. `nowId` and `nowCreated`
     * are POST's two readings of the clock.
     */
    method Handle(verb: string, url: string, body: Option<Record>, nowId: nat, nowCreated: nat) returns (reply: WordsReply)
      modifies this
      ensures verb == "GET" && !IsIdRoute(url) ==> reply == AllWords(old(words)) && words == old(words)
      ensures verb == "POST" && !IsIdRoute(url) && body.Some? ==>
        reply == Created(WithDefaults(body.value, nowId, nowCreated)) && words == old(words) + [WithDefaults(body.value, nowId, nowCreated)]
      ensures verb == "POST" && !IsIdRoute(url) && body.None? ==> reply == ServerError && words == old(words)
      ensures verb == "DELETE" && IsIdRoute(url) ==> reply == Deleted && words == WithoutId(old(words), RouteId(url).value)
      ensures verb == "PUT" && IsIdRoute(url) && FirstIndex(old(words), RouteId(url).value).None? ==>
        reply == NotFound && words == old(words)
      ensures verb == "PUT" && IsIdRoute(url) && FirstIndex(old(words), RouteId(url).value).Some? && body.None? ==>
        reply == ServerError && words == old(words)
      ensures verb == "PUT" && IsIdRoute(url) && body.Some? && UpdateFirst(old(words), RouteId(url).value, body.value).Some? ==>
        var (updated, merged) := UpdateFirst(old(words), RouteId(url).value, body.value).value;
        reply == Updated(merged) && words == updated
      ensures (verb != "GET" && verb != "POST" && verb != "DELETE" && verb != "PUT")
        || ((verb == "GET" || verb == "POST") && IsIdRoute(url))
        || ((verb == "DELETE" || verb == "PUT") && !IsIdRoute(url))
        ==> reply == PassedOn && words == old(words)
    {
      var idRoute := IsIdRoute(url);
      if verb == "GET" && !idRoute {
        reply := AllWords(words);
      } else if verb == "POST" && !idRoute {
        if body.Some? {
          var created := Post(body.value, nowId, nowCreated);
          reply := Created(created);
        } else {
          reply := ServerError;
        }
      } else if verb == "DELETE" && idRoute {
        Delete(RouteId(url).value);
        reply := Deleted;
      } else if verb == "PUT" && idRoute {
        reply := Put(RouteId(url).value, body);
      } else {
        reply := PassedOn;
      }
    }
  }

  // ---------------------------------------------------------------------------
  // The /api/convert middleware

  /**
   * The body of a convert request: `Unparsable` when `JSON.parse` throws or
   * yields `null`, otherwise its `text` field (None when absent).
   */
  datatype ConvertRequest = Unparsable | Body(text: Option<Value>)

  /** What `/api/convert` answers. */
  datatype ConvertReply =
    | BadRequest                 // 400: "Text is required"
    | ConvertError               // 500: the body could not be read or `text` has no `trim`
    | Converted(readings: Readings)

  /** `!text || text.trim() === ""`. */
  predicate TextMissing(text: Option<Value>) {
    text.None? || !TruthyValue(text.value) || (text.value.Str? && Blank(text.value.s))
  }

  /**
   * The convert handler. `kuroshiro` is the analyser `initKuroshiro` yields,
   * None when its initialisation failed; the analyser maps a text to its
   * three readings, None when one of the three conversions throws.
   */
  function Convert(request: ConvertRequest, kuroshiro: Option<LocalConverter>): (r: ConvertReply)
    ensures r.BadRequest? <==> request.Body? && TextMissing(request.text)
    ensures r.ConvertError? <==> request.Unparsable? || (!TextMissing(request.text) && !request.text.value.Str?)
    ensures r.Converted? ==> request.Body? && request.text.Some? && request.text.value.Str?
    ensures r.Converted? && r.readings != NO_READINGS ==>
      var text := Trim(request.text.value.s);
      HasKanji(text) && kuroshiro.Some? && kuroshiro.value(text) == Some(r.readings)
    ensures (&& request.Body? && request.text.Some? && request.text.value.Str? && !Blank(request.text.value.s)
             && HasKanji(Trim(request.text.value.s)) && kuroshiro.Some? && kuroshiro.value(Trim(request.text.value.s)).Some?)
      ==> r == Converted(kuroshiro.value(Trim(request.text.value.s)).value)
  {
    match request
    case Unparsable => ConvertError
    case Body(text) =>
      if TextMissing(text) then BadRequest
      else if !text.value.Str? then ConvertError
      else
        var trimmed := Trim(text.value.s);
        if !HasKanji(trimmed) then Converted(NO_READINGS)
        else match kuroshiro
          case None => Converted(NO_READINGS)
          case Some(analyser) =>
            match analyser(trimmed)
            case None => Converted(NO_READINGS)
            case Some(readings) => Converted(readings)
  }

  /**
   * Empty readings with status 200 come back for text without a kanji, when
   * the analyser failed to initialise and when a conversion throws.
   */
  lemma ConvertEmptyReadings(s: string, kuroshiro: Option<LocalConverter>)
    requires !Blank(s)
    requires !HasKanji(s) || kuroshiro.None? || kuroshiro.value(Trim(s)).None?
    ensures Convert(Body(Some(Str(s))), kuroshiro) == Converted(NO_READINGS)
  {
    KanjiSurvivesTrim(s);
  }

  /**
   * A text with a kanji and a working analyser comes back with status 200
   * and the analyser's readings of the trimmed text.
   */
  lemma ConvertReadings(s: string, kuroshiro: Option<LocalConverter>)
    requires HasKanji(s) && kuroshiro.Some? && kuroshiro.value(Trim(s)).Some?
    ensures Convert(Body(Some(Str(s))), kuroshiro) == Converted(kuroshiro.value(Trim(s)).value)
  {
    KanjiSurvivesTrim(s);
    assert !Blank(s);
  }

  // ---------------------------------------------------------------------------
  // The /api/tts middleware

  /** `part` occurs in `s` at position `i`. */
  predicate OccursAt(s: string, part: string, i: int) {
    0 <= i <= |s| - |part| && s[i..i + |part|] == part
  }

  /** `s.includes(part)`. */
  predicate Includes(s: string, part: string) {
    exists i :: 0 <= i <= |s| - |part| && OccursAt(s, part, i)
  }

  /** A content type the browser can play: it mentions mp3, mpeg, webm, ogg or wav. */
  predicate Playable(contentType: string) {
    Includes(contentType, "mp3") || Includes(contentType, "mpeg") || Includes(contentType, "webm")
    || Includes(contentType, "ogg") || Includes(contentType, "wav")
  }

  const DEFAULT_AUDIO: string := "audio/mpeg"

  lemma DefaultAudioPlayable()
    ensures Playable(DEFAULT_AUDIO)
  {
    assert OccursAt(DEFAULT_AUDIO, "mpeg", 6);
  }

  /**
   * The content type sent with the audio: the upstream one when present and
   * playable, "audio/mpeg" otherwise.
   */
  function AudioContentType(upstream: Option<string>): (r: string)
    ensures Playable(r)
    ensures upstream.Some? && Playable(upstream.value) ==> r == upstream.value
    ensures r == DEFAULT_AUDIO || upstream == Some(r)
  {
    DefaultAudioPlayable();
    var contentType := if upstream.Some? && upstream.value != "" then upstream.value else DEFAULT_AUDIO;
    if Playable(contentType) then contentType else DEFAULT_AUDIO
  }

  /** Normalising an already normalised content type changes nothing. */
  lemma AudioContentTypeIdempotent(upstream: Option<string>)
    ensures AudioContentType(Some(AudioContentType(upstream))) == AudioContentType(upstream)
  {
  }

  /** How the request to the speech service went. */
  datatype Upstream = Answer(status: int, contentType: Option<string>) | Unreachable

  /** What `/api/tts` answers. */
  datatype TtsReply =
    | Preflight                   // OPTIONS: 200 with the CORS headers
    | TextRequired                // 400: no `text` query parameter
    | UpstreamStatus(status: int) // the speech service's own non-200 status
    | Audio(contentType: string)  // 200: the audio stream with this content type
    | TtsError                    // 500: decoding or the request failed
    | TtsPassedOn                 // `next()`

  /**
   * The TTS proxy. `text` is the query parameter, `decode` is
   * `decodeURIComponent` (None when it throws), `upstream` is the outcome of
   * the request for the decoded text.
   */
  function Tts(verb: string, text: Option<string>, decode: string -> Option<string>, upstream: Upstream): (r: TtsReply)
    ensures r.Preflight? <==> verb == "OPTIONS"
    ensures r.TextRequired? <==> verb == "GET" && (text.None? || text.value == "")
    ensures r.TtsPassedOn? <==> verb != "OPTIONS" && verb != "GET"
    ensures r.UpstreamStatus? ==> upstream.Answer? && upstream.status == r.status != 200
    ensures r.Audio? ==>
      upstream.Answer? && upstream.status == 200 && r.contentType == AudioContentType(upstream.contentType)
    ensures r.TtsError? <==>
      verb == "GET" && text.Some? && text.value != "" && (decode(text.value).None? || upstream.Unreachable?)
    ensures r.UpstreamStatus? <==>
      verb == "GET" && text.Some? && text.value != "" && decode(text.value).Some?
      && upstream.Answer? && upstream.status != 200
    ensures r.Audio? <==>
      verb == "GET" && text.Some? && text.value != "" && decode(text.value).Some?
      && upstream.Answer? && upstream.status == 200
  {
    if verb == "OPTIONS" then Preflight
    else if verb != "GET" then TtsPassedOn
    else if text.None? || text.value == "" then TextRequired
    else match decode(text.value)
      case None => TtsError
      case Some(_) =>
        match upstream
        case Unreachable => TtsError
        case Answer(status, contentType) =>
          if status != 200 then UpstreamStatus(status)
          else Audio(AudioContentType(contentType))
  }
}
