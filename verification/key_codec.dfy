/**
 Key encoding of the single-table layout: which (PK, SK) pair and which index
 partition key each logical entity lives under, and the prefix stripping the
 listing uses to recover an id.
 */
module KeyCodec {
  import opened Wrappers
  import opened Storage

  const USER_PREFIX: string := "USER#"
  const EMAIL_PREFIX: string := "EMAIL#"
  const PROFILE_SK: string := "PROFILE"
  const USER_STATS_SK: string := "DASHBOARD#STATS"
  const GLOBAL_STATS_PK: string := "DASHBOARD#GLOBAL"
  const GLOBAL_STATS_SK: string := "STATS"

  /** `USER#<id>`: partition key of every row of one user, and the index sort key. */
  function UserPk(id: string): string
  {
    USER_PREFIX + id
  }

  /** `(USER#<id>, PROFILE)`: where a user's profile row lives. */
  function ProfileKey(id: string): Key
  {
    Key(UserPk(id), PROFILE_SK)
  }

  /** `EMAIL#<email>`: index partition key of a profile row. */
  function EmailIndexPk(email: string): string
  {
    EMAIL_PREFIX + email
  }

  /** `(USER#<id>, DASHBOARD#STATS)`: a user's own dashboard row. */
  function UserStatsKey(id: string): Key
  {
    Key(UserPk(id), USER_STATS_SK)
  }

  /** `(DASHBOARD#GLOBAL, STATS)`: the global dashboard row. */
  const GlobalStatsKey: Key := Key(GLOBAL_STATS_PK, GLOBAL_STATS_SK)

  /** `pat` occurs in `s` starting at index `i`. */
  predicate OccursAt(s: string, pat: string, i: nat)
  {
    i + |pat| <= |s| && s[i..i + |pat|] == pat
  }

  /** `s.indexOf(pat)`: the first index at which `pat` occurs, if any. */
  function IndexOf(s: string, pat: string): (r: Option<nat>)
    ensures r.Some? ==> OccursAt(s, pat, r.value)
    ensures r.Some? ==> forall j :: 0 <= j < r.value ==> !OccursAt(s, pat, j)
    ensures r.None? ==> forall j: nat :: !OccursAt(s, pat, j)
    decreases |s|
  {
    if |pat| > |s| then
      assert forall j: nat :: !OccursAt(s, pat, j);
      None
    else if s[..|pat|] == pat then
      Some(0)
    else
      var rest := IndexOf(s[1..], pat);
      ShiftOccurrence(s, pat);
      assert !OccursAt(s, pat, 0);
      match rest
      case None => None
      case Some(i) => Some(i + 1)
  }

  /** An occurrence at `j + 1` in `s` is an occurrence at `j` in `s[1..]`. */
  lemma ShiftOccurrence(s: string, pat: string)
    requires |s| > 0
    ensures forall j: nat :: j > 0 ==> (OccursAt(s, pat, j) <==> OccursAt(s[1..], pat, j - 1))
  {
    forall j: nat | j > 0
      ensures OccursAt(s, pat, j) <==> OccursAt(s[1..], pat, j - 1)
    {
      if j + |pat| <= |s| {
        assert s[1..][j - 1..j - 1 + |pat|] == s[j..j + |pat|];
      }
    }
  }

  /** `s.replace(pat, '')` with a string pattern: removes the first occurrence
      of `pat`, wherever it is, and leaves `s` alone when there is none. */
  function RemoveFirst(s: string, pat: string): (r: string)
    ensures (forall j: nat :: !OccursAt(s, pat, j)) ==> r == s
    ensures forall i: nat :: OccursAt(s, pat, i) && (forall j :: 0 <= j < i ==> !OccursAt(s, pat, j))
              ==> r == s[..i] + s[i + |pat|..]
  {
    match IndexOf(s, pat)
    case None => s
    case Some(i) => s[..i] + s[i + |pat|..]
  }

  /** Stripping `USER#` from a user partition key gives back the id. */
  lemma StripUserPrefix(id: string)
    ensures RemoveFirst(UserPk(id), USER_PREFIX) == id
  {
    assert OccursAt(UserPk(id), USER_PREFIX, 0);
    assert UserPk(id)[|USER_PREFIX|..] == id;
  }

  /** Different ids give different user partition keys. */
  lemma UserPkInjective(a: string, b: string)
    ensures UserPk(a) == UserPk(b) <==> a == b
  {
    if UserPk(a) == UserPk(b) {
      assert a == UserPk(a)[|USER_PREFIX|..];
      assert b == UserPk(b)[|USER_PREFIX|..];
    }
  }

  /** Different emails give different index partition keys. */
  lemma EmailIndexPkInjective(a: string, b: string)
    ensures EmailIndexPk(a) == EmailIndexPk(b) <==> a == b
  {
    if EmailIndexPk(a) == EmailIndexPk(b) {
      assert a == EmailIndexPk(a)[|EMAIL_PREFIX|..];
      assert b == EmailIndexPk(b)[|EMAIL_PREFIX|..];
    }
  }

  /** Profile rows, per-user dashboard rows and the global dashboard row never
      share a key, and each kind of key determines its id. */
  lemma KeysDisjoint(a: string, b: string)
    ensures ProfileKey(a) != UserStatsKey(b)
    ensures ProfileKey(a) != GlobalStatsKey
    ensures UserStatsKey(a) != GlobalStatsKey
    ensures ProfileKey(a) == ProfileKey(b) <==> a == b
    ensures UserStatsKey(a) == UserStatsKey(b) <==> a == b
  {
    UserPkInjective(a, b);
  }
}
