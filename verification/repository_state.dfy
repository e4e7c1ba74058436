/** The state a repository monitor compares between polls
    (RepositoryMonitors/SvnRepositoryCommit.cs): a revision string. */
module RepositoryState {
  import opened Common
  import opened Strings

  datatype SvnRepositoryState = SvnRepositoryState(revision: Option<string>)

  /** A monitor state: Subversion's, or one of another kind. */
  datatype MonitorState = Svn(state: SvnRepositoryState) | OtherState

  /** `string.Equals(a, b, OrdinalIgnoreCase)`: two nulls are equal, a null
      equals no string, two strings compare ignoring case. */
  predicate OrdinalIgnoreCaseEquals(fold: char -> char, a: Option<string>, b: Option<string>) {
    if a.None? || b.None? then a.None? && b.None? else EqualsIgnoreCase(fold, a.value, b.value)
  }

  /** `Equals(other)`. */
  predicate StateEquals(fold: char -> char, self: SvnRepositoryState, other: MonitorState) {
    other.Svn? && OrdinalIgnoreCaseEquals(fold, self.revision, other.state.revision)
  }

  /** `GetHashCode`: `hash` stands for the case-insensitive string hash,
      which sees only the folded text of `Revision ?? ""`. */
  function HashCode(fold: char -> char, hash: string -> int, self: SvnRepositoryState): int {
    hash(FoldCase(fold, OrEmpty(self.revision)))
  }

  /** `GetDescription`: the revision, or "" when there is none. */
  function Description(self: SvnRepositoryState): (r: string)
    ensures self.revision.Some? ==> r == self.revision.value
    ensures self.revision.None? ==> r == ""
  {
    OrEmpty(self.revision)
  }

  /** The description determines the hash, and two set revisions with the
      same description are equal states. */
  lemma DescriptionAgreesWithEquality(fold: char -> char, hash: string -> int, a: SvnRepositoryState, b: SvnRepositoryState)
    requires Description(a) == Description(b)
    ensures HashCode(fold, hash, a) == HashCode(fold, hash, b)
    ensures a.revision.Some? && b.revision.Some? ==> StateEquals(fold, a, Svn(b))
  {
  }

  /** A state of another kind is never equal. */
  lemma OtherKindNeverEqual(fold: char -> char, self: SvnRepositoryState)
    ensures !StateEquals(fold, self, OtherState)
  {
  }

  /** Equality is reflexive, symmetric and transitive. */
  lemma StateEqualsIsEquivalence(fold: char -> char, a: SvnRepositoryState, b: SvnRepositoryState, c: SvnRepositoryState)
    ensures StateEquals(fold, a, Svn(a))
    ensures StateEquals(fold, a, Svn(b)) <==> StateEquals(fold, b, Svn(a))
    ensures StateEquals(fold, a, Svn(b)) && StateEquals(fold, b, Svn(c)) ==> StateEquals(fold, a, Svn(c))
  {
  }

  /** Two missing revisions are equal, but a missing one differs from "". */
  lemma NullIsNotEmpty(fold: char -> char)
    ensures StateEquals(fold, SvnRepositoryState(None), Svn(SvnRepositoryState(None)))
    ensures !StateEquals(fold, SvnRepositoryState(None), Svn(SvnRepositoryState(Some(""))))
  {
  }

  /** Equal states hash alike, whatever the hash of folded text. */
  lemma EqualStatesHashAlike(fold: char -> char, hash: string -> int, a: SvnRepositoryState, b: SvnRepositoryState)
    requires StateEquals(fold, a, Svn(b))
    ensures HashCode(fold, hash, a) == HashCode(fold, hash, b)
  {
  }

  /** The one place the hash and equality disagree: a missing revision and ""
      hash alike but are not equal. */
  lemma NullAndEmptyHashAlike(fold: char -> char, hash: string -> int)
    ensures HashCode(fold, hash, SvnRepositoryState(None)) == HashCode(fold, hash, SvnRepositoryState(Some("")))
    ensures !StateEquals(fold, SvnRepositoryState(None), Svn(SvnRepositoryState(Some(""))))
  {
  }
}
