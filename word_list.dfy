/**
 * The word list (src/components/WordList.jsx): the category filter, the
 * component state that loading, switching category and deleting update,
 * and which screen the list shows.
 */
module WordList {
  import opened Wrappers
  import opened Seqs
  import opened Words

  /** The category that selects every word ("全部", "all"). */
  const ALL: string := "全部"

  /** `filterWords`: every word under `ALL`, else the words of that category in their stored order. */
  function FilterWords(words: seq<Word>, category: string): (r: seq<Word>)
    ensures category == ALL ==> r == words
    ensures category != ALL ==> forall i :: 0 <= i < |r| ==> r[i].entry.category == category
    ensures forall i :: 0 <= i < |words| && words[i].entry.category == category ==> words[i] in r
  {
    if category == ALL then words else Filter(words, (w: Word) => w.entry.category == category)
  }

  /**
   * Any other category keeps exactly the words of that category, each as
   * often as it is stored, in their stored order.
   */
  lemma FilterWordsSpec(words: seq<Word>, category: string)
    requires category != ALL
    ensures IsSubsequence(FilterWords(words, category), words)
    ensures forall w :: multiset(FilterWords(words, category))[w] ==
                        (if w.entry.category == category then multiset(words)[w] else 0)
  {
    FilterSubsequence(words, (w: Word) => w.entry.category == category);
    FilterCount(words, (w: Word) => w.entry.category == category);
  }

  /** The filter comes back empty exactly when no word has the category. */
  lemma FilterWordsEmpty(words: seq<Word>, category: string)
    requires category != ALL
    ensures FilterWords(words, category) == [] <==> forall i :: 0 <= i < |words| ==> words[i].entry.category != category
  {
    var r := FilterWords(words, category);
    if r != [] {
      assert r[0].entry.category == category && r[0] in words;
    }
  }

  /** Filtering an already filtered list by the same category changes nothing. */
  lemma FilterWordsIdempotent(words: seq<Word>, category: string)
    ensures FilterWords(FilterWords(words, category), category) == FilterWords(words, category)
  {
    if category != ALL {
      FilterAll(FilterWords(words, category), (w: Word) => w.entry.category == category);
    }
  }

  /** The screen the list shows. */
  datatype Screen =
    | Loading
    | NoWords
    | EmptyCategory(category: string)
    | Listing(count: nat, cards: seq<Word>)

  /**
   * The screen, checked in order: loading, then nothing stored, then an
   * empty result under a chosen category, then the cards with their count.
   */
  function SelectScreen(loading: bool, words: seq<Word>, filtered: seq<Word>, category: string): (s: Screen)
    ensures s.Loading? <==> loading
    ensures s.NoWords? <==> !loading && words == []
    ensures s.EmptyCategory? <==> !loading && words != [] && filtered == [] && category != ALL
    ensures s.EmptyCategory? ==> s.category == category
    ensures s.Listing? ==> s.count == |s.cards| && s.cards == filtered
  {
    if loading then Loading
    else if |words| == 0 then NoWords
    else if |filtered| == 0 && category != ALL then EmptyCategory(category)
    else Listing(|filtered|, filtered)
  }

  /** The list component's state. */
  class WordListState {
    var words: seq<Word>
    var filteredWords: seq<Word>
    var selectedCategory: string
    var loading: bool

    /** The filtered list is always the full list under the selected category. */
    predicate Valid()
      reads this
    {
      filteredWords == FilterWords(words, selectedCategory)
    }

    function CurrentScreen(): Screen
      reads this
    {
      SelectScreen(loading, words, filteredWords, selectedCategory)
    }

    /** Mounting: nothing loaded yet, every category selected, loading. */
    constructor()
      ensures words == [] && filteredWords == [] && selectedCategory == ALL && loading
      ensures Valid() && CurrentScreen() == Loading
    {
      words := [];
      filteredWords := [];
      selectedCategory := ALL;
      loading := true;
    }

    /**
     * `loadWords` with the list the server returned (`getWords` turns every
     * failure into an empty list): store it, re-apply the selected category,
     * stop loading.
     */
    method LoadWords(stored: seq<Word>)
      modifies this
      ensures words == stored && selectedCategory == old(selectedCategory) && !loading
      ensures filteredWords == FilterWords(stored, selectedCategory)
      ensures Valid()
    {
      words := stored;
      filteredWords := FilterWords(stored, selectedCategory);
      loading := false;
    }

    /** `handleCategoryChange`: select `category` and filter the full list, not the previous result. */
    method CategoryChange(category: string)
      modifies this
      ensures selectedCategory == category && words == old(words) && loading == old(loading)
      ensures filteredWords == FilterWords(words, category)
      ensures Valid()
    {
      selectedCategory := category;
      filteredWords := FilterWords(words, category);
    }

    /**
     * `handleDelete`: nothing happens unless the user confirms; a failed
     * deletion (`reloaded` is `None`) leaves the list as it was; otherwise
     * the list is reloaded with the server's new list.
     */
    method HandleDelete(confirmed: bool, reloaded: Option<seq<Word>>)
      modifies this
      ensures !confirmed || reloaded.None? ==>
        words == old(words) && filteredWords == old(filteredWords)
        && selectedCategory == old(selectedCategory) && loading == old(loading)
      ensures confirmed && reloaded.Some? ==>
        words == reloaded.value && selectedCategory == old(selectedCategory) && !loading
        && filteredWords == FilterWords(reloaded.value, selectedCategory)
      ensures old(Valid()) ==> Valid()
    {
      if confirmed && reloaded.Some? {
        LoadWords(reloaded.value);
      }
    }
  }

  /**
   * Once loaded, a non-empty store shows every word under `ALL`, and under
   * any other category shows the "empty category" screen exactly when no
   * word has that category.
   */
  lemma LoadedScreen(words: seq<Word>, category: string)
    requires words != []
    ensures category == ALL ==> SelectScreen(false, words, FilterWords(words, category), category) == Listing(|words|, words)
    ensures category != ALL ==>
      (SelectScreen(false, words, FilterWords(words, category), category).EmptyCategory?
       <==> forall i :: 0 <= i < |words| ==> words[i].entry.category != category)
  {
    if category != ALL {
      FilterWordsEmpty(words, category);
    }
  }
}
