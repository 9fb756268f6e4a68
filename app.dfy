/**
 * The application shell (src/App.jsx): whether the form's modal is open,
 * which word it edits, and the key that remounts the word list after a
 * save.
 */
module App {
  import opened Wrappers
  import opened Words
  import WordForm

  class AppState {
    /** Bumped after every save; the word list is keyed by it, so a new value remounts and reloads it. */
    var refreshKey: nat
    /** The word the form edits; `None` while adding a new word. */
    var editingWord: Option<Word>
    var isModalOpen: bool

    /** A word is only ever being edited inside the open modal. */
    predicate Valid()
      reads this
    {
      editingWord.Some? ==> isModalOpen
    }

    /** What the form shows when the modal opens. */
    function Form(): WordForm.FormData
      reads this
    {
      WordForm.Prefill(editingWord)
    }

    /** The initial state: key 0, nothing edited, modal closed. */
    constructor()
      ensures refreshKey == 0 && editingWord.None? && !isModalOpen
      ensures Valid()
    {
      refreshKey := 0;
      editingWord := None;
      isModalOpen := false;
    }

    /** `handleWordAdded`: bump the key by one, stop editing, close the modal. */
    method WordAdded()
      modifies this
      ensures refreshKey == old(refreshKey) + 1
      ensures editingWord.None? && !isModalOpen
      ensures Valid()
    {
      refreshKey := refreshKey + 1;
      editingWord := None;
      isModalOpen := false;
    }

    /** `handleEditWord`: open the modal on `word`, whose fields the form then shows. */
    method EditWord(word: Word)
      modifies this
      ensures editingWord == Some(word) && isModalOpen && refreshKey == old(refreshKey)
      ensures Valid() && Form() == WordForm.Prefill(Some(word))
    {
      editingWord := Some(word);
      isModalOpen := true;
    }

    /** `handleCancelEdit`: stop editing and close the modal. */
    method CancelEdit()
      modifies this
      ensures editingWord.None? && !isModalOpen && refreshKey == old(refreshKey)
      ensures Valid()
    {
      editingWord := None;
      isModalOpen := false;
    }

    /** `handleAddNew`: open the modal on an empty form. */
    method AddNew()
      modifies this
      ensures editingWord.None? && isModalOpen && refreshKey == old(refreshKey)
      ensures Valid() && Form() == WordForm.EMPTY_FORM
    {
      editingWord := None;
      isModalOpen := true;
    }

    /** `handleCloseModal`: the same as cancelling. */
    method CloseModal()
      modifies this
      ensures editingWord.None? && !isModalOpen && refreshKey == old(refreshKey)
      ensures Valid()
    {
      editingWord := None;
      isModalOpen := false;
    }
  }
}
