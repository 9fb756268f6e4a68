/**
 * The reading conversion end to end: the client's `processJapanese`
 * (src/utils/japanese.js) posting the trimmed text to the server's
 * `/api/convert` handler (vite-plugin-api.js) and reading its reply.
 */
module Pipeline {
  import opened Wrappers
  import opened Text
  import opened Japanese
  import opened Api

  /** How the client sees the server's reply: a 2xx JSON body, or a response that is not OK. */
  function AsSeenByClient(reply: ConvertReply): (r: RemoteReply)
    ensures r.Answered? <==> reply.Converted?
    ensures reply.Converted? ==>
      r.hiragana == Some(reply.readings.hiragana) && r.katakana == Some(reply.readings.katakana)
      && r.romaji == Some(reply.readings.romaji)
  {
    match reply
    case Converted(readings) => Answered(Some(readings.hiragana), Some(readings.katakana), Some(readings.romaji))
    case BadRequest => NotOk
    case ConvertError => NotOk
  }

  /** The server's reply to the client's request for `japanese`, as the client sees it. */
  function ServerReply(japanese: string, kuroshiro: Option<LocalConverter>): RemoteReply {
    AsSeenByClient(Convert(Body(Some(Str(Trim(japanese)))), kuroshiro))
  }

  /** `processJapanese` as written, talking to the convert handler. */
  function ReadingsAsWritten(japanese: string, kuroshiro: Option<LocalConverter>, wanakana: LocalConverter): Readings {
    ProcessJapanese(japanese, ServerReply(japanese, kuroshiro), wanakana)
  }

  /**
   * The server's all-empty answer is meant to hand the text back to the
   * local converter; the client must then fall back on it as it does for a
   * failed request.
   */
  function ProcessJapaneseFixed(japanese: string, reply: RemoteReply, wanakana: LocalConverter): Readings {
    match reply
    case Answered(h, k, r) =>
      if !Blank(japanese) && OrEmpty(h) == "" && OrEmpty(k) == "" && OrEmpty(r) == ""
      then FallbackConversion(Trim(japanese), wanakana)
      else ProcessJapanese(japanese, reply, wanakana)
    case _ => ProcessJapanese(japanese, reply, wanakana)
  }

  /** `processJapanese` with the fallback on an empty answer, talking to the convert handler. */
  function ReadingsFixed(japanese: string, kuroshiro: Option<LocalConverter>, wanakana: LocalConverter): Readings {
    ProcessJapaneseFixed(japanese, ServerReply(japanese, kuroshiro), wanakana)
  }

  /**
   * With the fix, text the server cannot read (no analyser, or the analyser
   * throws) gets the local converter's readings, as text without a kanji
   * does; readings the server does produce are used unchanged.
   */
  lemma FixedFallsBack(japanese: string, kuroshiro: Option<LocalConverter>, wanakana: LocalConverter)
    requires !Blank(japanese)
    ensures (kuroshiro.None? || kuroshiro.value(Trim(japanese)).None?) ==>
      ReadingsFixed(japanese, kuroshiro, wanakana) == FallbackConversion(Trim(japanese), wanakana)
    ensures !HasKanji(japanese) ==>
      ReadingsFixed(japanese, kuroshiro, wanakana) == FallbackConversion(Trim(japanese), wanakana)
    ensures (HasKanji(japanese) && kuroshiro.Some? && kuroshiro.value(Trim(japanese)).Some?
             && kuroshiro.value(Trim(japanese)).value != NO_READINGS) ==>
      ReadingsFixed(japanese, kuroshiro, wanakana) == kuroshiro.value(Trim(japanese)).value
  {
    var text := Trim(japanese);
    KanjiSurvivesTrim(japanese);
    TrimIdempotent(japanese);
    assert !Blank(text) by {
      BlankIff(japanese);
      BlankIff(text);
      TrimKeepsNonSpace(japanese);
      DropSpacesEmpty(japanese);
      DropSpacesEmpty(text);
    }
    if !HasKanji(japanese) || kuroshiro.None? || kuroshiro.value(text).None? {
      ConvertEmptyReadings(text, kuroshiro);
    }
  }

  /** 食べる: a kanji followed by kana. */
  const TABERU: string := "\U{98DF}\U{3079}\U{308B}"

  /** A local converter that turns only the kana of 食べる into romaji. */
  function KanaOnly(text: string): Option<Readings> {
    Some(Readings(text, "\U{98DF}\U{30D9}\U{30EB}", "\U{98DF}beru"))
  }

  lemma TaberuTrimmed()
    ensures Trim(TABERU) == TABERU && !Blank(TABERU)
  {
    ContainsIff(WHITESPACE, '\U{98DF}');
    ContainsIff(WHITESPACE, '\U{308B}');
    assert TrimStart(TABERU) == TABERU;
    assert TrimEnd(TABERU) == TABERU;
  }

  /**
   * As written, when the analyser fails to initialise the client keeps the
   * server's three empty strings for 食べる, although its own local
   * converter would have given readings.
   */
  lemma EmptyAnswerNotFallenBack()
    ensures FallbackConversion(TABERU, KanaOnly) != NO_READINGS
    ensures ReadingsAsWritten(TABERU, None, KanaOnly) == NO_READINGS
    ensures ReadingsFixed(TABERU, None, KanaOnly) == FallbackConversion(TABERU, KanaOnly)
  {
    TaberuTrimmed();
    assert IsKanji(TABERU[0]);
    ConvertEmptyReadings(TABERU, None);
    FixedFallsBack(TABERU, None, KanaOnly);
  }
}
