/** The word set of set.go: a Go map from words to empty structs. */
module WordSet {

  class WordHashSet {
    /** The Go map `map[string]struct{}`; its keys are the members. */
    var entries: map<string, ()>

    /** The words currently in the set. */
    ghost function Members(): set<string>
      reads this
    {
      entries.Keys
    }

    constructor ()
      ensures Members() == {}
    {
      entries := map[];
    }

    /** set.go:5-7: afterwards `word` is a member and nothing else changed. */
    method Add(word: string)
      modifies this
      ensures Members() == old(Members()) + {word}
    {
      entries := entries[word := ()];
    }

    /** set.go:9-11: afterwards `word` is not a member and nothing else changed. */
    method Remove(word: string)
      modifies this
      ensures Members() == old(Members()) - {word}
    {
      entries := entries - {word};
    }

    /** set.go:13-16: a query that changes nothing. */
    method Has(word: string) returns (ok: bool)
      ensures ok <==> word in Members()
    {
      ok := word in entries;
    }
  }

  /** The set laws that callers rely on, checked against the contracts above alone. */
  method SetLaws(w: string, v: string)
    requires w != v
  {
    var s := new WordHashSet();
    s.Add(v);
    s.Add(w);
    var hasW := s.Has(w);
    assert hasW;
    ghost var before := s.Members();
    s.Add(w);
    assert s.Members() == before;  // Add is idempotent
    s.Remove(w);
    var hasV := s.Has(v);
    hasW := s.Has(w);
    assert !hasW && hasV;  // Remove takes out w alone
    before := s.Members();
    s.Remove(w);
    assert s.Members() == before;  // removing an absent word changes nothing
  }
}
