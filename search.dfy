// User search, shared by the search page and the header's results
// dropdown: the length check on the trimmed term, the case-insensitive
// match on name or username, and the reset on close.

module Search {
  import opened Common
  import opened Domain

  /** Lower-cased name or username contains the lower-cased term. */
  predicate Matches(u: User, term: string) {
    Contains(ToLower(u.name), ToLower(term)) || Contains(ToLower(u.username), ToLower(term))
  }

  /** The short-term branch (recent searches and topics instead of results). */
  predicate ShortTerm(term: string) {
    |Trim(term)| < 2
  }

  /** The result effect: nothing for a short term, otherwise the matching
    * directory users; only the length check trims. */
  function Results(directory: seq<User>, term: string): (r: seq<User>)
    ensures ShortTerm(term) ==> r == []
    ensures !ShortTerm(term) ==> forall u :: u in r <==> u in directory && Matches(u, term)
  {
    if ShortTerm(term) then [] else Filter(directory, (u: User) => Matches(u, term))
  }

  /** Results come in directory order. */
  lemma ResultsInDirectoryOrder(directory: seq<User>, term: string)
    ensures Subsequence(Results(directory, term), directory)
  {
    if !ShortTerm(term) {
      FilterKeepsOrder(directory, (u: User) => Matches(u, term));
    }
  }

  /** A contained text's first character occurs in the container. */
  lemma {:induction false} ContainsFirst(s: string, t: string)
    requires Contains(s, t) && t != []
    ensures t[0] in s
    decreases |s|
  {
    if StartsWith(s, t) {
      assert s[0] == t[0];
    } else {
      ContainsFirst(s[1..], t);
    }
  }

  /** Lower-casing does not create spaces. */
  lemma LowerSpace(s: string)
    requires ' ' in ToLower(s)
    ensures ' ' in s
  {
    var i :| 0 <= i < |s| && ToLower(s)[i] == ' ';
    assert s[i] == ' ';
  }

  /** The match term keeps its padding: a term typed with a leading space
    * finds only users whose name or username has a space. */
  lemma PaddedTermNeedsSpace(directory: seq<User>, term: string, u: User)
    requires term != [] && term[0] == ' '
    requires u in Results(directory, term)
    ensures ' ' in u.name || ' ' in u.username
  {
    assert ToLower(term)[0] == ' ';
    if Contains(ToLower(u.name), ToLower(term)) {
      ContainsFirst(ToLower(u.name), ToLower(term));
      LowerSpace(u.name);
    } else {
      ContainsFirst(ToLower(u.username), ToLower(term));
      LowerSpace(u.username);
    }
  }

  /** The search overlay's state. */
  class SearchPage {
    var searchTerm: string
    var searchResults: seq<User>
    const directory: seq<User>

    predicate Valid()
      reads this
    {
      searchResults == Results(directory, searchTerm)
    }

    constructor (directory: seq<User>)
      ensures this.directory == directory && searchTerm == [] && searchResults == [] && Valid()
    {
      this.directory := directory;
      searchTerm := [];
      searchResults := [];
    }

    /** Typing runs the result effect for the new term. */
    method Type(term: string)
      modifies this
      ensures searchTerm == term && searchResults == Results(directory, term) && Valid()
    {
      searchTerm := term;
      searchResults := Results(directory, term);
    }

    /** The open/close effect: closing clears the term and the results;
      * opening only focuses the input. */
    method SetOpen(isOpen: bool)
      requires Valid()
      modifies this
      ensures !isOpen ==> searchTerm == [] && searchResults == []
      ensures isOpen ==> searchTerm == old(searchTerm) && searchResults == old(searchResults)
      ensures Valid()
    {
      if !isOpen {
        searchTerm := [];
        searchResults := [];
        assert ShortTerm(searchTerm);
      }
    }
  }
}
