/** The `Movie` entity and the column and Bean Validation constraints it
    declares. A row that breaks them is refused by the store when saved. */
module Entities {
  import opened Common

  /** `@Column(length = 200)` on the title. */
  const TitleMaxLength: nat := 200

  /** The length JPA gives a string column that declares none: director,
      studio, poster and the `movie_cast` element column. */
  const DefaultColumnLength: nat := 255

  /** A movie row. `idMovie` is `None` until the store assigns one on the first
      save; `releaseYear` is `None` when the client sent no year. The cast is a
      set: no duplicates and no order. */
  datatype Movie = Movie(
    idMovie: Option<int>,
    title: string,
    director: string,
    studio: string,
    movieCast: set<string>,
    releaseYear: Option<int>,
    poster: string)

  /** `String.trim()` strips every character up to and including U+0020. */
  predicate IsTrimmed(c: char) {
    c <= ' '
  }

  function TrimStart(s: string): string {
    if |s| > 0 && IsTrimmed(s[0]) then TrimStart(s[1..]) else s
  }

  function TrimEnd(s: string): string {
    if |s| > 0 && IsTrimmed(s[|s| - 1]) then TrimEnd(s[..|s| - 1]) else s
  }

  /** Trimming the front drops a run of trimmed characters and stops at the first other one. */
  lemma {:induction false} TrimStartDrops(s: string)
    ensures var t := TrimStart(s);
            |t| <= |s| && t == s[|s| - |t|..] &&
            (forall i :: 0 <= i < |s| - |t| ==> IsTrimmed(s[i])) &&
            (|t| > 0 ==> !IsTrimmed(t[0]))
  {
    if |s| > 0 && IsTrimmed(s[0]) {
      TrimStartDrops(s[1..]);
    }
  }

  /** Trimming the back drops a run of trimmed characters and stops at the last other one. */
  lemma {:induction false} TrimEndDrops(s: string)
    ensures var t := TrimEnd(s);
            |t| <= |s| && t == s[..|t|] &&
            (forall i :: |t| <= i < |s| ==> IsTrimmed(s[i])) &&
            (|t| > 0 ==> !IsTrimmed(t[|t| - 1]))
  {
    if |s| > 0 && IsTrimmed(s[|s| - 1]) {
      TrimEndDrops(s[..|s| - 1]);
    }
  }

  /** `String.trim()`: the longest infix with no trimmed character at either end. */
  function Trim(s: string): string {
    TrimEnd(TrimStart(s))
  }

  /** `@NotBlank`: not null and `trim()` leaves at least one character. */
  predicate NotBlank(s: string) {
    |Trim(s)| > 0
  }

  /** A string is blank exactly when all of its characters are trimmed away. */
  lemma NotBlankIff(s: string)
    ensures NotBlank(s) <==> exists i :: 0 <= i < |s| && !IsTrimmed(s[i])
  {
    var t := TrimStart(s);
    TrimStartDrops(s);
    TrimEndDrops(t);
    if exists i :: 0 <= i < |s| && !IsTrimmed(s[i]) {
      var i :| 0 <= i < |s| && !IsTrimmed(s[i]);
      assert |t| > 0;
      assert |TrimEnd(t)| > 0;
    }
    if NotBlank(s) {
      var u := TrimEnd(t);
      assert u[0] == s[|s| - |t|];
    }
  }

  /** The constraints the entity declares: title, director, studio and poster
      `@NotBlank`, the title at most 200 characters and every other string
      column at most the default 255, the year not null. */
  predicate SatisfiesConstraints(m: Movie) {
    && NotBlank(m.title)
    && |m.title| <= TitleMaxLength
    && NotBlank(m.director)
    && |m.director| <= DefaultColumnLength
    && NotBlank(m.studio)
    && |m.studio| <= DefaultColumnLength
    && (forall member :: member in m.movieCast ==> |member| <= DefaultColumnLength)
    && m.releaseYear.Some?
    && NotBlank(m.poster)
    && |m.poster| <= DefaultColumnLength
  }
}
