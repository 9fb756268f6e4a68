/**
 * The word form (src/components/WordForm.jsx): the prefill from the word
 * being edited, and the submit handler that validates the fields, derives
 * the readings and builds the record to save.
 */
module WordForm {
  import opened Wrappers
  import opened Text
  import opened Japanese
  import opened Api
  import opened Words

  /** The form's nine inputs. */
  datatype FormData = FormData(
    chinese: string,
    japaneseKanji: string,
    japanese: string,
    romaji: string,
    example: string,
    exampleJapanese: string,
    exampleRomaji: string,
    exampleNote: string,
    category: string)

  const EMPTY_FORM := FormData("", "", "", "", "", "", "", "", "")

  // ---------------------------------------------------------------------------
  // Prefill

  /**
   * The prefill for the word being edited: its Japanese goes to the kanji
   * input when it holds a kanji and to the kana input otherwise; with no
   * word being edited the form is cleared.
   */
  function Prefill(editing: Option<Word>): (form: FormData)
    ensures editing.None? ==> form == EMPTY_FORM
    ensures editing.Some? ==>
      var e := editing.value.entry;
      && form.chinese == e.chinese && form.romaji == e.romaji && form.example == e.example
      && form.exampleJapanese == e.exampleJapanese && form.exampleRomaji == e.exampleRomaji
      && form.exampleNote == e.exampleNote && form.category == e.category
  {
    match editing
    case None => EMPTY_FORM
    case Some(word) =>
      var e := word.entry;
      var kanji := e.japanese != "" && HasKanji(e.japanese);
      FormData(e.chinese, if kanji then e.japanese else "", if kanji then "" else e.japanese,
               e.romaji, e.example, e.exampleJapanese, e.exampleRomaji, e.exampleNote, e.category)
  }

  /** The word's Japanese lands in exactly one of the two inputs, the kanji one exactly when it holds a kanji. */
  lemma PrefillSplitsByKanji(word: Word)
    ensures var form := Prefill(Some(word));
      && (HasKanji(word.entry.japanese) ==> form.japaneseKanji == word.entry.japanese && form.japanese == "")
      && (!HasKanji(word.entry.japanese) ==> form.japaneseKanji == "" && form.japanese == word.entry.japanese)
  {
  }

  // ---------------------------------------------------------------------------
  // Submit

  /** A required input left empty. */
  datatype FormField = ChineseField | ExampleField | CategoryField

  /** What `processJapanese` did for a text: its readings, or it threw. */
  datatype Conversion = Converted(readings: Readings) | Threw

  /** What submitting does: show the errors, or save a new word, or update the word being edited. */
  datatype Submission =
    | Rejected(errors: set<FormField>)
    | Create(entry: Entry)
    | Update(id: Value, createdAt: Value, entry: Entry)

  /** The required inputs: chinese and example non-blank, a category chosen. */
  predicate Complete(form: FormData) {
    !Blank(form.chinese) && !Blank(form.example) && form.category != ""
  }

  /** The text the word's readings come from: the kanji input, else the kana input, else the chinese, trimmed. */
  function JapaneseSource(form: FormData): string {
    if !Blank(form.japaneseKanji) then Trim(form.japaneseKanji)
    else if !Blank(form.japanese) then Trim(form.japanese)
    else Trim(form.chinese)
  }

  /** Some reading is non-empty (`hiragana || katakana || romaji`). */
  predicate AnyReading(r: Readings) {
    r.hiragana != "" || r.katakana != "" || r.romaji != ""
  }

  /** `a || b`. */
  function Or(a: string, b: string): string {
    if a != "" then a else b
  }

  /** The Japanese inputs are both blank, so the word's readings come from the chinese. */
  predicate FromChinese(form: FormData) {
    Blank(form.japaneseKanji) && Blank(form.japanese)
  }

  /** The romaji typed while editing, which overrides a derived one; "" when there is none. */
  function TypedRomaji(typed: string, editing: Option<Word>): string {
    if editing.Some? && !Blank(typed) then Trim(typed) else ""
  }

  /**
   * What the word's hiragana, katakana and romaji are: the conversion of the
   * source (empty when it throws), or, when the source is the chinese and
   * the conversion yields nothing, the chinese itself; a romaji typed while
   * editing wins.
   */
  predicate WordReadingsRule(form: FormData, editing: Option<Word>, convert: string -> Conversion, r: Readings) {
    var c := convert(JapaneseSource(form));
    var derived :=
      if c.Converted? && (AnyReading(c.readings) || !FromChinese(form)) then c.readings
      else if FromChinese(form) then Readings(Trim(form.chinese), Trim(form.chinese), Trim(form.chinese))
      else NO_READINGS;
    && r.hiragana == derived.hiragana && r.katakana == derived.katakana
    && r.romaji == Or(TypedRomaji(form.romaji, editing), derived.romaji)
  }

  /**
   * What the example's Japanese and romaji are: a typed example Japanese is
   * kept (trimmed) and only its romaji derived; otherwise the example's
   * conversion gives hiragana, else katakana, else the example itself. A
   * romaji typed while editing wins and, with a typed example Japanese,
   * spares the conversion.
   */
  predicate ExampleRule(form: FormData, editing: Option<Word>, convert: string -> Conversion,
                        exampleJapanese: string, exampleRomaji: string) {
    var typed := TypedRomaji(form.exampleRomaji, editing);
    if !Blank(form.exampleJapanese) then
      var c := convert(Trim(form.exampleJapanese));
      && exampleJapanese == Trim(form.exampleJapanese)
      && exampleRomaji == (if typed != "" then typed else if c.Converted? then c.readings.romaji else "")
    else
      var c := convert(Trim(form.example));
      if c.Converted? && AnyReading(c.readings) then
        && exampleJapanese == Or(c.readings.hiragana, Or(c.readings.katakana, Trim(form.example)))
        && exampleRomaji == Or(typed, c.readings.romaji)
      else exampleJapanese == Trim(form.example) && exampleRomaji == typed
  }

  /** The `japaneseData` block of `handleSubmit`. */
  method DeriveWordReadings(form: FormData, editing: Option<Word>, convert: string -> Conversion)
    returns (japanese: string, readings: Readings)
    ensures japanese == JapaneseSource(form)
    ensures WordReadingsRule(form, editing, convert, readings)
  {
    if !Blank(form.japaneseKanji) {
      japanese := Trim(form.japaneseKanji);
      match convert(japanese)
      case Converted(r) => readings := r;
      case Threw => readings := NO_READINGS;
    } else if !Blank(form.japanese) {
      japanese := Trim(form.japanese);
      match convert(japanese)
      case Converted(r) => readings := r;
      case Threw => readings := NO_READINGS;
    } else {
      japanese := Trim(form.chinese);
      var c := convert(japanese);
      if c.Converted? && AnyReading(c.readings) {
        readings := c.readings;
      } else {
        readings := Readings(japanese, japanese, japanese);
      }
    }
    if editing.Some? && !Blank(form.romaji) {
      readings := readings.(romaji := Trim(form.romaji));
    }
  }

  /** The `exampleData` block of `handleSubmit`, for a form whose example is not blank. */
  method DeriveExample(form: FormData, editing: Option<Word>, convert: string -> Conversion)
    returns (exampleJapanese: string, exampleRomaji: string)
    requires !Blank(form.example)
    ensures ExampleRule(form, editing, convert, exampleJapanese, exampleRomaji)
  {
    exampleJapanese := "";
    exampleRomaji := "";
    if editing.Some? && !Blank(form.exampleRomaji) {
      exampleRomaji := Trim(form.exampleRomaji);
    }
    if !Blank(form.exampleJapanese) {
      if editing.None? || Blank(form.exampleRomaji) {
        var c := convert(Trim(form.exampleJapanese));
        match c
        case Converted(r) =>
          if exampleRomaji == "" {
            exampleRomaji := r.romaji;
          }
        case Threw =>
      }
      exampleJapanese := Trim(form.exampleJapanese);
    } else {
      var c := convert(Trim(form.example));
      if c.Converted? && AnyReading(c.readings) {
        exampleJapanese := Or(c.readings.hiragana, Or(c.readings.katakana, Trim(form.example)));
        exampleRomaji := Or(exampleRomaji, c.readings.romaji);
      } else {
        exampleJapanese := Trim(form.example);
      }
    }
  }

  /** The entry `handleSubmit` builds from a complete form. */
  predicate Derived(form: FormData, editing: Option<Word>, convert: string -> Conversion, e: Entry) {
    && e.chinese == Trim(form.chinese) && e.category == form.category
    && e.japanese == JapaneseSource(form)
    && WordReadingsRule(form, editing, convert, Readings(e.hiragana, e.katakana, e.romaji))
    && e.example == Trim(form.example) && e.exampleNote == Trim(form.exampleNote)
    && ExampleRule(form, editing, convert, e.exampleJapanese, e.exampleRomaji)
  }

  /** Trimming a non-blank text gives a trimmed non-blank text. */
  lemma TrimNonBlank(s: string)
    requires !Blank(s)
    ensures !Blank(Trim(s)) && Trimmed(Trim(s))
  {
    TrimIdempotent(s);
  }

  /** Every entry derived from a complete form is one the list and the card may rely on. */
  lemma DerivedIsSaved(form: FormData, editing: Option<Word>, convert: string -> Conversion, e: Entry)
    requires Complete(form) && Derived(form, editing, convert, e)
    ensures Saved(e)
  {
    TrimNonBlank(form.chinese);
    TrimNonBlank(form.example);
    TrimIdempotent(form.exampleNote);
    if !Blank(form.japaneseKanji) {
      TrimNonBlank(form.japaneseKanji);
    } else if !Blank(form.japanese) {
      TrimNonBlank(form.japanese);
    }
    if !Blank(form.exampleJapanese) {
      TrimNonBlank(form.exampleJapanese);
    }
  }

  /**
   * Editing a saved word and submitting the prefilled form untouched is
   * accepted and keeps the word's chinese, category, Japanese, example and
   * note; a non-blank romaji and example Japanese come back trimmed.
   */
  lemma ResubmitKeepsWord(word: Word, convert: string -> Conversion, e: Entry)
    requires Saved(word.entry)
    requires Derived(Prefill(Some(word)), Some(word), convert, e)
    ensures Complete(Prefill(Some(word)))
    ensures e.chinese == word.entry.chinese && e.category == word.entry.category
    ensures e.japanese == word.entry.japanese
    ensures e.example == word.entry.example && e.exampleNote == word.entry.exampleNote
    ensures !Blank(word.entry.romaji) ==> e.romaji == Trim(word.entry.romaji)
    ensures !Blank(word.entry.exampleJapanese) ==> e.exampleJapanese == Trim(word.entry.exampleJapanese)
  {
    var w := word.entry;
    var form := Prefill(Some(word));
    if w.japanese != "" && HasKanji(w.japanese) {
      assert form.japaneseKanji == w.japanese;
    } else {
      assert form.japaneseKanji == "" && form.japanese == w.japanese;
      assert Trim("") == "";
    }
  }

  /**
   * `handleSubmit` up to the save call. `editing` is the word being edited;
   * `convert` is `processJapanese`.
   */
  method Submit(form: FormData, editing: Option<Word>, convert: string -> Conversion) returns (out: Submission)
    ensures out.Rejected? <==> !Complete(form)
    ensures out.Rejected? ==>
      && (ChineseField in out.errors <==> Blank(form.chinese))
      && (ExampleField in out.errors <==> Blank(form.example))
      && (CategoryField in out.errors <==> form.category == "")
    ensures out.Create? <==> Complete(form) && editing.None?
    ensures out.Update? ==> editing.Some? && out.id == editing.value.id && out.createdAt == editing.value.createdAt
    ensures !out.Rejected? ==> Derived(form, editing, convert, out.entry) && Saved(out.entry)
  {
    var errors: set<FormField> := {};
    if Blank(form.chinese) {
      errors := errors + {ChineseField};
    }
    if Blank(form.example) {
      errors := errors + {ExampleField};
    }
    if form.category == "" {
      errors := errors + {CategoryField};
    }
    if errors != {} {
      return Rejected(errors);
    }
    var japanese, readings := DeriveWordReadings(form, editing, convert);
    var exampleJapanese, exampleRomaji := DeriveExample(form, editing, convert);
    var entry := Entry(Trim(form.chinese), form.category, japanese, readings.hiragana, readings.katakana,
                       readings.romaji, Trim(form.example), exampleJapanese, exampleRomaji, Trim(form.exampleNote));
    DerivedIsSaved(form, editing, convert, entry);
    if editing.Some? {
      out := Update(editing.value.id, editing.value.createdAt, entry);
    } else {
      out := Create(entry);
    }
  }
}
