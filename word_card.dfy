/**
 * The word card (src/components/WordCard.jsx): which text the two play
 * buttons speak, and which lines of a word the card shows.
 */
module WordCard {
  import opened Wrappers
  import opened Text
  import opened Japanese
  import opened Words
  import WordForm

  // ---------------------------------------------------------------------------
  // Play buttons

  /** `a || b || …` over strings: the first non-empty one, if any. */
  function FirstNonEmpty(items: seq<string>): (r: Option<string>)
    ensures r.None? <==> forall i :: 0 <= i < |items| ==> items[i] == ""
    ensures r.Some? ==> r.value != "" && exists i :: 0 <= i < |items| && items[i] == r.value && AllEmpty(items[..i])
  {
    if items == [] then None
    else if items[0] != "" then
      assert AllEmpty(items[..0]);
      Some(items[0])
    else
      var rest := FirstNonEmpty(items[1..]);
      if rest.Some? then
        var i :| 0 <= i < |items[1..]| && items[1..][i] == rest.value && AllEmpty(items[1..][..i]);
        assert items[..i + 1] == [items[0]] + items[1..][..i];
        assert items[i + 1] == rest.value && AllEmpty(items[..i + 1]);
        rest
      else
        assert forall i :: 1 <= i < |items| ==> items[i] == items[1..][i - 1];
        rest
  }

  /** Every string of `items` is empty. */
  predicate AllEmpty(items: seq<string>) {
    forall i :: 0 <= i < |items| ==> items[i] == ""
  }

  /** What the word's play button speaks: its Japanese, else its hiragana, else its chinese; nothing when all are empty. */
  function PlayText(e: Entry): Option<string> {
    FirstNonEmpty([e.japanese, e.hiragana, e.chinese])
  }

  /** What the example's play button speaks: the example Japanese, else the example, else the chinese. */
  function ExamplePlayText(e: Entry): Option<string> {
    FirstNonEmpty([e.exampleJapanese, e.example, e.chinese])
  }

  /** The play button speaks the first non-empty of Japanese, hiragana and chinese, and nothing when all three are empty. */
  lemma PlayTextChoice(e: Entry)
    ensures e.japanese != "" ==> PlayText(e) == Some(e.japanese)
    ensures e.japanese == "" && e.hiragana != "" ==> PlayText(e) == Some(e.hiragana)
    ensures e.japanese == "" && e.hiragana == "" && e.chinese != "" ==> PlayText(e) == Some(e.chinese)
    ensures PlayText(e).None? <==> e.japanese == "" && e.hiragana == "" && e.chinese == ""
  {
    var items := [e.japanese, e.hiragana, e.chinese];
    if PlayText(e).Some? {
      var i :| 0 <= i < |items| && items[i] == PlayText(e).value && AllEmpty(items[..i]);
      assert i >= 1 ==> items[..i][0] == e.japanese;
      assert i >= 2 ==> items[..i][1] == e.hiragana;
    }
    assert items[0] == e.japanese && items[1] == e.hiragana && items[2] == e.chinese;
  }

  /** The example's play button speaks the first non-empty of example Japanese, example and chinese. */
  lemma ExamplePlayTextChoice(e: Entry)
    ensures e.exampleJapanese != "" ==> ExamplePlayText(e) == Some(e.exampleJapanese)
    ensures e.exampleJapanese == "" && e.example != "" ==> ExamplePlayText(e) == Some(e.example)
    ensures e.exampleJapanese == "" && e.example == "" && e.chinese != "" ==> ExamplePlayText(e) == Some(e.chinese)
    ensures ExamplePlayText(e).None? <==> e.exampleJapanese == "" && e.example == "" && e.chinese == ""
  {
    var items := [e.exampleJapanese, e.example, e.chinese];
    if ExamplePlayText(e).Some? {
      var i :| 0 <= i < |items| && items[i] == ExamplePlayText(e).value && AllEmpty(items[..i]);
      assert i >= 1 ==> items[..i][0] == e.exampleJapanese;
      assert i >= 2 ==> items[..i][1] == e.example;
    }
    assert items[0] == e.exampleJapanese && items[1] == e.example && items[2] == e.chinese;
  }

  // ---------------------------------------------------------------------------
  // Shown lines

  /** The example half of the card. */
  datatype ExampleView = ExampleView(
    playButton: bool,
    original: string,
    japanese: Option<string>,
    romaji: Option<string>,
    note: Option<string>)

  /** What the card shows; `None` is a line left out. */
  datatype CardView = CardView(
    category: Option<string>,
    japanese: Option<string>,
    romaji: Option<string>,
    hiragana: Option<string>,
    chinese: Option<string>,
    example: Option<ExampleView>)

  /** A line shown with `text` when `cond` holds. */
  function When(cond: bool, text: string): Option<string> {
    if cond then Some(text) else None
  }

  /** A non-empty, non-blank text that differs from each of `others`. */
  predicate Distinct(text: string, others: seq<string>) {
    text != "" && !Blank(text) && text !in others
  }

  /**
   * The card of a word. Every shown reading line is non-blank and differs
   * from the lines it would repeat; a romaji line shows the romaji with
   * syllable spaces added and keeps all its letters; an example Japanese
   * or romaji line never repeats the example.
   */
  function Render(e: Entry): (card: CardView)
    ensures card.japanese.Some? ==> !Blank(card.japanese.value) && card.japanese.value != e.chinese
    ensures card.romaji.Some? ==>
      && !Blank(e.romaji) && e.romaji != e.japanese && e.romaji != e.chinese
      && card.romaji.value != "" && DropSpaces(card.romaji.value) == DropSpaces(e.romaji)
    ensures card.hiragana.Some? ==> !Blank(card.hiragana.value) && card.hiragana.value !in {e.japanese, e.chinese}
    ensures card.example.Some? <==> e.example != ""
    ensures card.example.Some? ==>
      var x := card.example.value;
      && x.original == e.example
      && (x.playButton <==> e.exampleJapanese != "" || e.exampleRomaji != "")
      && (x.japanese.Some? ==> !Blank(x.japanese.value) && x.japanese.value != e.example)
      && (x.romaji.Some? ==>
            !Blank(e.exampleRomaji) && e.exampleRomaji != e.example
            && DropSpaces(x.romaji.value) == DropSpaces(e.exampleRomaji))
  {
    AddSpacesKeepsLetters(e.romaji);
    AddSpacesEmptyIff(e.romaji);
    AddSpacesKeepsLetters(e.exampleRomaji);
    var example :=
      if e.example == "" then None
      else Some(ExampleView(
        e.exampleJapanese != "" || e.exampleRomaji != "",
        e.example,
        When(Distinct(e.exampleJapanese, [e.example]), e.exampleJapanese),
        When(Distinct(e.exampleRomaji, [e.example]), AddSpacesToRomaji(e.exampleRomaji)),
        When(e.exampleNote != "" && !Blank(e.exampleNote), e.exampleNote)));
    CardView(
      When(e.category != "", e.category),
      When(Distinct(e.japanese, [e.chinese]), e.japanese),
      When(Distinct(e.romaji, [e.japanese, e.chinese]), AddSpacesToRomaji(e.romaji)),
      When(Distinct(e.hiragana, [e.japanese, e.chinese]), e.hiragana),
      When(e.chinese != "", e.chinese),
      example)
  }

  /**
   * Each reading line is shown exactly when its text is non-blank and does
   * not repeat the lines above it; the example's Japanese and romaji lines
   * exactly when non-blank and not the example itself; the note exactly
   * when non-blank.
   */
  lemma ShownIff(e: Entry)
    ensures Render(e).japanese.Some? <==> !Blank(e.japanese) && e.japanese != e.chinese
    ensures Render(e).romaji.Some? <==> !Blank(e.romaji) && e.romaji != e.japanese && e.romaji != e.chinese
    ensures Render(e).romaji.Some? ==> Render(e).romaji.value == AddSpacesToRomaji(e.romaji)
    ensures Render(e).hiragana.Some? <==> !Blank(e.hiragana) && e.hiragana != e.japanese && e.hiragana != e.chinese
    ensures e.example != "" ==>
      var x := Render(e).example.value;
      && (x.japanese.Some? <==> !Blank(e.exampleJapanese) && e.exampleJapanese != e.example)
      && (x.romaji.Some? <==> !Blank(e.exampleRomaji) && e.exampleRomaji != e.example)
      && (x.note.Some? <==> !Blank(e.exampleNote))
  {
    assert Trim("") == "";
    if e.example != "" {
      ExampleShown(e);
    }
  }

  lemma ExampleShown(e: Entry)
    requires e.example != ""
    ensures var x := Render(e).example.value;
      && (x.japanese.Some? <==> !Blank(e.exampleJapanese) && e.exampleJapanese != e.example)
      && (x.romaji.Some? <==> !Blank(e.exampleRomaji) && e.exampleRomaji != e.example)
      && (x.note.Some? <==> !Blank(e.exampleNote))
  {
    assert Trim("") == "";
  }

  /**
   * A saved word shows its category, chinese and example, with the
   * example's play button; both play buttons speak the Japanese forms.
   */
  lemma SavedCard(e: Entry)
    requires Saved(e)
    ensures PlayText(e) == Some(e.japanese)
    ensures ExamplePlayText(e) == Some(e.exampleJapanese)
    ensures var card := Render(e);
      && card.category == Some(e.category) && card.chinese == Some(e.chinese)
      && card.example.Some? && card.example.value.playButton
  {
    assert Trim("") == "";
    PlayTextChoice(e);
    ExamplePlayTextChoice(e);
  }

  /**
   * A word whose Japanese and readings all fell back to its chinese shows
   * only the chinese line: no Japanese, romaji or hiragana line.
   */
  lemma ChineseFallbackCard(form: WordForm.FormData, convert: string -> WordForm.Conversion, e: Entry)
    requires WordForm.Complete(form) && WordForm.Derived(form, None, convert, e)
    requires WordForm.FromChinese(form)
    requires convert(Trim(form.chinese)).Threw? || !WordForm.AnyReading(convert(Trim(form.chinese)).readings)
    ensures var card := Render(e);
      && card.japanese.None? && card.romaji.None? && card.hiragana.None? && card.chinese == Some(e.chinese)
  {
    assert Trim("") == "";
  }

  /**
   * A shown romaji line that had no spaces is tidy: no space at either end
   * and never two in a row, with no syllable left unsplit.
   */
  lemma RomajiLineTidy(e: Entry)
    requires ' ' !in e.romaji
    requires Render(e).romaji.Some?
    ensures Tidy(Render(e).romaji.value) && NoUnsplit(Render(e).romaji.value)
  {
    AddSpacesSplitsSyllables(e.romaji);
  }

  /** An example whose Japanese fell back to the example itself shows no example Japanese line. */
  lemma ExampleFallbackHidden(e: Entry)
    requires e.example != "" && e.exampleJapanese == e.example
    ensures Render(e).example.value.japanese.None?
  {
  }
}
