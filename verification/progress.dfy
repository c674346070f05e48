/**
  The progress store: one optional saved index kept under a fixed key in
  the browser's local storage. The stored value is modelled as the integer
  the page reads back from it, or None when the key is absent. `len` is the
  length of the vocabulary list currently loaded.
 */
module Progress {
  import opened Wrappers

  type Store = Option<int>

  /** `index` is a position in a list of `len` entries. */
  predicate InRange(index: int, len: int) {
    0 <= index < len
  }

  /** `saveProgress`: write `index` only when it is a position in the list;
      otherwise the store is left as it was. */
  function Save(store: Store, len: int, index: int): (r: Store)
    ensures InRange(index, len) ==> r == Some(index)
    ensures !InRange(index, len) ==> r == store
  {
    if 0 <= index && index < len then Some(index) else store
  }

  /** `loadProgress`: the saved index when there is one and it is still a
      position in the current list, and -1 otherwise. */
  function Load(store: Store, len: int): (index: int)
    ensures index == -1 || InRange(index, len)
    ensures InRange(index, len) <==> (store.Some? && InRange(store.value, len))
    ensures index != -1 ==> store == Some(index)
  {
    match store
    case Some(saved) => if 0 <= saved && saved < len then saved else -1
    case None => -1
  }

  /** `clearProgress`: remove the saved value, so that no list of any
      length finds one. */
  function Clear(): (r: Store)
    ensures r.None?
    ensures forall len: int :: Load(r, len) == -1
  {
    None
  }

  datatype Label = ReadAll | Continue

  /** The caption `updateSpeakButton` shows: "Continue" when there is a
      saved index to resume from, "Read All" otherwise. */
  function ButtonLabel(store: Store, len: int): (caption: Label)
    ensures caption == Continue <==> (store.Some? && InRange(store.value, len))
  {
    var saved := Load(store, len);
    if 0 <= saved && saved < len then Continue else ReadAll
  }

  /** A save followed by a load returns the saved index when it was in
      range; an out-of-range save changes nothing that a load can see. */
  lemma LoadAfterSave(store: Store, len: int, index: int)
    ensures Load(Save(store, len, index), len) == (if InRange(index, len) then index else Load(store, len))
  {
  }

  /** After a clear, a load finds nothing and the button offers "Read All". */
  lemma LoadAfterClear(len: int)
    ensures Load(Clear(), len) == -1
    ensures ButtonLabel(Clear(), len) == ReadAll
  {
  }

  /** A saved index that the current, shorter list no longer reaches is
      treated as absent. */
  lemma StaleIndexIgnored(saved: int, len: int)
    requires saved >= len
    ensures Load(Some(saved), len) == -1
    ensures ButtonLabel(Some(saved), len) == ReadAll
  {
  }
}
