/** Setup-time checks on the board size, a player's name and a player's symbol. */
module ValidationService {
  import opened Wrappers

  datatype SetupError =
    | BoardTooSmall
    | BoardTooLarge
    | EmptyName
    | NameTooLong
    | WhitespaceSymbol
    | DisallowedSymbol

  const MinBoardSize := 3
  const MaxBoardSize := 10
  const MaxNameLength := 20
  const AllowedPunctuation := "!@#$%^&*"

  /** Sizes from 3 to 10 are accepted; the lower bound is checked first. */
  function ValidateBoardSize(size: int): (r: Outcome<SetupError>)
    ensures r.Pass? <==> MinBoardSize <= size <= MaxBoardSize
    ensures r == Fail(BoardTooSmall) <==> size < MinBoardSize
    ensures r == Fail(BoardTooLarge) <==> size > MaxBoardSize
  {
    if size < MinBoardSize then Fail(BoardTooSmall)
    else if size > MaxBoardSize then Fail(BoardTooLarge)
    else Pass
  }

  // String.trim removes every leading and trailing character whose code is at most that of space.

  function TrimStart(s: string): (r: string)
    ensures r == [] <==> forall i :: 0 <= i < |s| ==> s[i] <= ' '
    ensures r != [] ==> r[0] > ' '
    ensures |r| <= |s| && r == s[|s| - |r|..]
    ensures forall i :: 0 <= i < |s| - |r| ==> s[i] <= ' '
  {
    if s != [] && s[0] <= ' ' then TrimStart(s[1..]) else s
  }

  function TrimEnd(s: string): (r: string)
    ensures r == [] <==> forall i :: 0 <= i < |s| ==> s[i] <= ' '
    ensures r != [] ==> r[|r| - 1] > ' '
    ensures |r| <= |s| && r == s[..|r|]
    ensures forall i :: |r| <= i < |s| ==> s[i] <= ' '
  {
    if s != [] && s[|s| - 1] <= ' ' then TrimEnd(s[..|s| - 1]) else s
  }

  /** Java's String.trim: the slice of `s` left after cutting every control character and space from both ends. */
  function Trim(s: string): (r: string)
    ensures r == [] <==> forall i :: 0 <= i < |s| ==> s[i] <= ' '
    ensures r != [] ==> r[0] > ' ' && r[|r| - 1] > ' '
    ensures exists a, b :: TrimmedSlice(s, r, a, b)
  {
    var t := TrimStart(s);
    var u := TrimEnd(t);
    TrimBothEnds(s, t, u);
    u
  }

  /**
   * Cutting a blank prefix of `s` to get `t`, then a blank suffix of `t` to get `u`,
   * leaves a slice of `s` with non-blank ends, empty exactly when `s` is all blank.
   */
  lemma TrimBothEnds(s: string, t: string, u: string)
    requires |t| <= |s| && t == s[|s| - |t|..]
    requires forall i :: 0 <= i < |s| - |t| ==> s[i] <= ' '
    requires t != [] ==> t[0] > ' '
    requires |u| <= |t| && u == t[..|u|]
    requires forall i :: |u| <= i < |t| ==> t[i] <= ' '
    requires u != [] ==> u[|u| - 1] > ' '
    ensures u == [] <==> forall i :: 0 <= i < |s| ==> s[i] <= ' '
    ensures u != [] ==> u[0] > ' ' && u[|u| - 1] > ' '
    ensures TrimmedSlice(s, u, |s| - |t|, |s| - |t| + |u|)
  {
    var a := |s| - |t|;
    var b := a + |u|;
    assert u == s[a..b];
    forall i | b <= i < |s| ensures s[i] <= ' ' {
      assert s[i] == t[i - a];
    }
  }

  /** r is s[a..b], and everything cut off on either side is a control character or a space. */
  predicate TrimmedSlice(s: string, r: string, a: int, b: int) {
    && 0 <= a <= b <= |s| && r == s[a..b]
    && (forall i :: 0 <= i < a ==> s[i] <= ' ')
    && (forall i :: b <= i < |s| ==> s[i] <= ' ')
  }

  /**
   * String.length: the number of UTF-16 code units, where a character outside the
   * Basic Multilingual Plane takes a surrogate pair.
   */
  function Utf16Length(s: string): (n: int)
    ensures |s| <= n <= 2 * |s|
    ensures n == |s| <==> forall i :: 0 <= i < |s| ==> s[i] < '\U{10000}'
  {
    if s == [] then 0
    else (if s[0] < '\U{10000}' then 1 else 2) + Utf16Length(s[1..])
  }

  /**
   * A name is rejected when null or blank after trimming, then when longer than 20
   * characters; a long blank name reports the empty-name error.
   */
  function ValidatePlayerName(name: Option<string>): (r: Outcome<SetupError>)
    ensures r == Fail(EmptyName) <==> name.None? || forall i :: 0 <= i < |name.value| ==> name.value[i] <= ' '
    ensures r == Fail(NameTooLong) <==>
      name.Some? && (exists i :: 0 <= i < |name.value| && name.value[i] > ' ') && Utf16Length(name.value) > MaxNameLength
    ensures r.Pass? <==>
      name.Some? && (exists i :: 0 <= i < |name.value| && name.value[i] > ' ') && Utf16Length(name.value) <= MaxNameLength
  {
    if name.None? || Trim(name.value) == [] then Fail(EmptyName)
    else if Utf16Length(name.value) > MaxNameLength then Fail(NameTooLong)
    else Pass
  }

  /**
   * Character.isWhitespace: the ASCII separators and controls 9-13 and 28-32, and the
   * Unicode space, line and paragraph separators other than the non-breaking ones.
   */
  function IsWhitespace(c: char): (r: bool)
    ensures c == ' ' || c == '\t' || c == '\n' || c == '\r' ==> r
    ensures c == '\U{A0}' || c == '\U{2007}' || c == '\U{202F}' ==> !r
    ensures r && c < '\U{80}' ==> c <= ' '
    ensures r ==> c !in AllowedPunctuation
  {
    || ('\U{9}' <= c <= '\U{D}')
    || ('\U{1C}' <= c <= ' ')
    || c == '\U{1680}'
    || ('\U{2000}' <= c <= '\U{2006}')
    || ('\U{2008}' <= c <= '\U{200A}')
    || c == '\U{2028}' || c == '\U{2029}' || c == '\U{205F}' || c == '\U{3000}'
  }

  /** Character.isLetterOrDigit, restricted to ASCII letters and digits. */
  function IsLetterOrDigit(c: char): (r: bool)
    ensures r ==> c > ' ' && !IsWhitespace(c) && c !in AllowedPunctuation
    ensures '0' <= c <= '9' ==> r
  {
    ('a' <= c <= 'z') || ('A' <= c <= 'Z') || ('0' <= c <= '9')
  }

  /** Whitespace is rejected first; otherwise a letter, a digit or one of !@#$%^&* is accepted. */
  function ValidateSymbol(c: char): (r: Outcome<SetupError>)
    ensures r == Fail(WhitespaceSymbol) <==> IsWhitespace(c)
    ensures r.Pass? <==> !IsWhitespace(c) && (IsLetterOrDigit(c) || c in AllowedPunctuation)
    ensures r.Pass? ==> c != ' '
  {
    if IsWhitespace(c) then Fail(WhitespaceSymbol)
    else if !IsLetterOrDigit(c) && c !in AllowedPunctuation then Fail(DisallowedSymbol)
    else Pass
  }
}
