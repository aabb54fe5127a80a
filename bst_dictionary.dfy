/** Homework 6's BSTDictionary: word/definition pairs kept in a
    BSTGenericSet whose elements compare by word only. */
module BstDictionaries {
  import opened Common
  import opened SearchTrees
  import opened BstGenericSets

  /** KVP: a word and its definition, which may be null (None). */
  datatype Kvp = Kvp(word: string, definition: Option<string>)

  /** KVP.compareTo compares the words alone. */
  function WordOf(p: Kvp): string { p.word }

  /** The definition the dictionary holds for word w: the one in the
      entry the search for w finds, None when there is none. */
  ghost function DefinitionIn(t: Tree<Kvp>, w: string): Option<string>
  {
    var found := Find(t, w, WordOf);
    if found.Some? then found.value.definition else None
  }

  class BSTDictionary {
    const store: BSTGenericSet<Kvp>
    ghost var Repr: set<object>

    ghost predicate Valid()
      reads this, Repr
    {
      && this in Repr && store in Repr && store.Repr <= Repr && this !in store.Repr
      && store.Valid() && store.key == WordOf && Ordered(store.T, WordOf)
    }

    /** The words with an entry. */
    ghost function Words(): set<string>
      reads this, store
    {
      Keys(store.T, WordOf)
    }

    /** A new dictionary has no words. */
    constructor ()
      ensures Valid() && fresh(Repr) && Words() == {}
    {
      store := new BSTGenericSet(WordOf);
      new;
      Repr := {this} + store.Repr;
    }

    /** put(word, definition): an entry for a new word; a word already
        there keeps the definition it was first put with. */
    method Put(word: string, definition: Option<string>)
      requires Valid()
      modifies Repr
      ensures Valid() && fresh(Repr - old(Repr))
      ensures Words() == old(Words()) + {word}
      ensures DefinitionIn(store.T, word) == if word in old(Words()) then old(DefinitionIn(store.T, word)) else definition
      ensures forall w :: w != word ==> DefinitionIn(store.T, w) == old(DefinitionIn(store.T, w))
    {
      var data := Kvp(word, definition);
      PutMeaning(store.T, data, WordOf);
      forall w | w != word
        ensures Find(Insert(store.T, data, WordOf), w, WordOf) == Find(store.T, w, WordOf)
      {
        FindOther(store.T, data, w, WordOf);
      }
      store.Put(data);
      Repr := Repr + store.Repr;
    }

    /** contains(word): false for null, otherwise whether the word has an
        entry. */
    function Contains(word: Option<string>): (b: bool)
      requires Valid()
      reads Repr
      ensures b <==> word.Some? && word.value in Words()
    {
      if word.None? then false
      else store.Contains(Some(Kvp(word.value, None)))
    }

    /** get(word): the definition of the word's entry, null when the word
        has none. */
    function Get(word: string): (r: Option<string>)
      requires Valid()
      reads Repr
      ensures word !in Words() ==> r == None
      ensures word in Words() ==> r == DefinitionIn(store.T, word)
    {
      var val := store.Get(Kvp(word, None));
      FindMeaning(store.T, word, WordOf);
      GetFinds(store.T, Kvp(word, None), val);
      if val.Some? then val.value.definition else None
    }
  }

  /** What get returns is what the search for the word finds, given a
      tree in which words are unique. */
  lemma GetFinds(t: Tree<Kvp>, probe: Kvp, val: Option<Kvp>)
    requires Ordered(t, WordOf)
    requires val.Some? <==> probe.word in Keys(t, WordOf)
    requires val.Some? ==> val.value in Elements(t) && val.value.word == probe.word
    ensures val == Find(t, probe.word, WordOf)
  {
    FindMeaning(t, probe.word, WordOf);
    if val.Some? {
      UniqueWords(t, val.value, Find(t, probe.word, WordOf).value);
    }
  }

  /** In an ordered tree no two entries share a word. */
  lemma {:induction false} UniqueWords(t: Tree<Kvp>, a: Kvp, b: Kvp)
    requires Ordered(t, WordOf)
    requires a in Elements(t) && b in Elements(t) && a.word == b.word
    ensures a == b
  {
    if t.Branch? {
      LessTrichotomy(a.word, t.value.word);
      Side(t, a);
      Side(t, b);
      if a in Elements(t.left) && b in Elements(t.left) {
        UniqueWords(t.left, a, b);
      } else if a in Elements(t.right) && b in Elements(t.right) {
        UniqueWords(t.right, a, b);
      }
    }
  }

  /** An entry in an ordered tree is the root, or has a word below the
      root's and is on the left, or one above it and is on the right. */
  lemma Side(t: Tree<Kvp>, a: Kvp)
    requires Ordered(t, WordOf) && t.Branch? && a in Elements(t)
    ensures a == t.value || (a in Elements(t.left) && Less(a.word, t.value.word)) || (a in Elements(t.right) && Less(t.value.word, a.word))
  {
    if a in Elements(t.left) {
      KeyOfElement(t.left, a, WordOf);
    } else if a in Elements(t.right) {
      KeyOfElement(t.right, a, WordOf);
    }
  }

  /** A client: the first definition put for a word is the one get
      returns, even after a second put for the same word. */
  method Define(w: string, d1: string, d2: string) returns (has: bool, nullHas: bool, got: Option<string>)
    ensures has && !nullHas && got == Some(d1)
  {
    var dict := new BSTDictionary();
    dict.Put(w, Some(d1));
    dict.Put(w, Some(d2));
    has := dict.Contains(Some(w));
    nullHas := dict.Contains(None);
    got := dict.Get(w);
  }
}
