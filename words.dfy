/**
 * A word as the client components handle it: the text fields of a stored
 * record, with an absent or null field read as "" (every component reads
 * them through `|| ''` or a truthiness test), and the server-assigned `id`
 * and `createdAt`, which the client only passes back.
 */
module Words {
  import opened Text
  import opened Api

  /** The text fields of a word, as the form saves them. */
  datatype Entry = Entry(
    chinese: string,
    category: string,
    japanese: string,
    hiragana: string,
    katakana: string,
    romaji: string,
    example: string,
    exampleJapanese: string,
    exampleRomaji: string,
    exampleNote: string)

  /** A stored word. */
  datatype Word = Word(id: Value, createdAt: Value, entry: Entry)

  /** `s` has no surrounding whitespace. */
  predicate Trimmed(s: string) {
    Trim(s) == s
  }

  /**
   * What every entry the form saves satisfies: chinese, Japanese and
   * example are trimmed and non-blank, a category is chosen, the example
   * has a Japanese form, and the note is trimmed.
   */
  predicate Saved(e: Entry) {
    && !Blank(e.chinese) && Trimmed(e.chinese)
    && e.category != ""
    && !Blank(e.japanese) && Trimmed(e.japanese)
    && !Blank(e.example) && Trimmed(e.example)
    && e.exampleJapanese != ""
    && Trimmed(e.exampleNote)
  }
}
