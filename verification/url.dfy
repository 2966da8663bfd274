/** onlyURL of snippets.js: lower-case the title, trim it, split it at runs
    of whitespace and join the pieces with hyphens. Characters are limited
    to ASCII, where toLowerCase maps 'A'..'Z' to 'a'..'z' and both trim and
    the pattern \s see the six ASCII whitespace characters. */
module Url {

  predicate IsAscii(s: string)
  {
    forall k :: 0 <= k < |s| ==> s[k] < 128 as char
  }

  /** The ASCII members of JavaScript's \s: tab, line feed, vertical tab,
      form feed, carriage return and space. */
  predicate IsWhitespace(c: char)
  {
    c == ' ' || c == '\t' || c == '\n' || c == '\U{000B}' || c == '\U{000C}' || c == '\r'
  }

  predicate IsUpper(c: char)
  {
    'A' <= c <= 'Z'
  }

  predicate NoWhitespace(s: string)
  {
    forall k :: 0 <= k < |s| ==> !IsWhitespace(s[k])
  }

  predicate AllWhitespace(s: string)
  {
    forall k :: 0 <= k < |s| ==> IsWhitespace(s[k])
  }

  predicate NoUpper(s: string)
  {
    forall k :: 0 <= k < |s| ==> !IsUpper(s[k])
  }

  function LowerChar(c: char): (d: char)
    ensures !IsUpper(d)
    ensures IsWhitespace(d) <==> IsWhitespace(c)
    ensures !IsUpper(c) ==> d == c
    ensures c < 128 as char ==> d < 128 as char
  {
    if IsUpper(c) then (c as int + 32) as char else c
  }

  /** toLowerCase: every upper-case letter replaced by its lower-case form,
      everything else kept in place. */
  function ToLower(s: string): (r: string)
    ensures |r| == |s|
    ensures forall k :: 0 <= k < |s| ==> r[k] == LowerChar(s[k])
    ensures NoUpper(r)
    ensures NoUpper(s) ==> r == s
    ensures IsAscii(s) ==> IsAscii(r)
  {
    seq(|s|, k requires 0 <= k < |s| => LowerChar(s[k]))
  }

  /** Number of whitespace characters at the start of s. */
  function LeadingWhitespace(s: string): (n: nat)
    ensures n <= |s|
    ensures forall k :: 0 <= k < n ==> IsWhitespace(s[k])
    ensures n < |s| ==> !IsWhitespace(s[n])
  {
    if |s| > 0 && IsWhitespace(s[0]) then 1 + LeadingWhitespace(s[1..]) else 0
  }

  /** Index where the whitespace at the end of s begins. */
  function TrailingWhitespaceStart(s: string): (n: nat)
    ensures n <= |s|
    ensures forall k :: n <= k < |s| ==> IsWhitespace(s[k])
    ensures n > 0 ==> !IsWhitespace(s[n - 1])
  {
    if |s| > 0 && IsWhitespace(s[|s| - 1]) then TrailingWhitespaceStart(s[..|s| - 1]) else |s|
  }

  /** Drops leading whitespace. */
  function TrimStart(s: string): (r: string)
    ensures |r| <= |s|
    ensures |r| > 0 ==> !IsWhitespace(r[0])
    ensures |r| == 0 <==> AllWhitespace(s)
  {
    s[LeadingWhitespace(s)..]
  }

  /** Drops trailing whitespace. */
  function TrimEnd(s: string): (r: string)
    ensures |r| <= |s|
    ensures |r| > 0 ==> !IsWhitespace(r[|r| - 1])
    ensures |r| == 0 <==> AllWhitespace(s)
  {
    s[..TrailingWhitespaceStart(s)]
  }

  /** trim: whitespace removed from both ends and nowhere else. */
  function Trim(s: string): (r: string)
    ensures |r| > 0 ==> !IsWhitespace(r[0]) && !IsWhitespace(r[|r| - 1])
    ensures |r| == 0 <==> AllWhitespace(s)
    ensures NoWhitespace(s) ==> r == s
    ensures IsAscii(s) ==> IsAscii(r)
  {
    TrimEnd(TrimStart(s))
  }

  /** Index just past the last non-whitespace character of s, or the
      end of the leading whitespace when s has none. */
  function ContentEnd(s: string): (hi: nat)
    ensures LeadingWhitespace(s) <= hi <= |s|
    ensures forall k :: hi <= k < |s| ==> IsWhitespace(s[k])
    ensures hi > LeadingWhitespace(s) ==> !IsWhitespace(s[hi - 1])
  {
    var lo := LeadingWhitespace(s);
    var t := TrailingWhitespaceStart(s[lo..]);
    WhitespaceAfterSlice(s, lo, t);
    assert t > 0 ==> s[lo + t - 1] == s[lo..][t - 1];
    lo + t
  }

  /** trim takes out one contiguous slice of its input, from the end of the
      leading whitespace to the start of the trailing whitespace, so
      nothing inside the string is removed. */
  lemma TrimIsSlice(s: string)
    ensures Trim(s) == s[LeadingWhitespace(s)..ContentEnd(s)]
  {
    var lo := LeadingWhitespace(s);
    assert Trim(s) == s[lo..][..ContentEnd(s) - lo];
  }

  /** Whitespace at the end of a suffix of s is whitespace at the end of s. */
  lemma WhitespaceAfterSlice(s: string, lo: nat, t: nat)
    requires lo <= |s| && t <= |s| - lo
    requires forall k :: t <= k < |s| - lo ==> IsWhitespace(s[lo..][k])
    ensures forall k :: lo + t <= k < |s| ==> IsWhitespace(s[k])
  {
    forall k | lo + t <= k < |s|
      ensures IsWhitespace(s[k])
    {
      assert s[k] == s[lo..][k - lo];
    }
  }

  /** split(/\s+/): the pieces between maximal runs of whitespace. A run at
      the very start or end yields an empty first or last piece, and a
      string with no whitespace at all is a single piece. */
  function SplitWhitespace(s: string): (parts: seq<string>)
    decreases |s|
    ensures |parts| >= 1
    ensures forall i :: 0 <= i < |parts| ==> NoWhitespace(parts[i])
    ensures NoWhitespace(s) ==> parts == [s]
  {
    if |s| == 0 then [""]
    else if IsWhitespace(s[0]) then [""] + SplitWhitespace(TrimStart(s[1..]))
    else
      var rest := SplitWhitespace(s[1..]);
      assert s == [s[0]] + s[1..];
      [[s[0]] + rest[0]] + rest[1..]
  }

  /** When the string does not end in whitespace, only the first piece of
      the split can be empty. */
  lemma {:induction false} LaterPiecesNonEmpty(s: string)
    requires |s| == 0 || !IsWhitespace(s[|s| - 1])
    decreases |s|
    ensures forall i :: 1 <= i < |SplitWhitespace(s)| ==> |SplitWhitespace(s)[i]| > 0
  {
    if |s| == 0 {
    } else if IsWhitespace(s[0]) {
      var rest := TrimStart(s[1..]);
      assert rest[|rest| - 1] == s[|s| - 1];
      LaterPiecesNonEmpty(rest);
    } else {
      LaterPiecesNonEmpty(s[1..]);
    }
  }

  /** A trimmed, non-empty string splits into non-empty pieces only: the
      split of a trimmed title never yields an empty word. */
  lemma TrimmedSplitHasNoEmptyPiece(t: string)
    requires |t| > 0 && !IsWhitespace(t[0]) && !IsWhitespace(t[|t| - 1])
    ensures forall i :: 0 <= i < |SplitWhitespace(t)| ==> |SplitWhitespace(t)[i]| > 0
  {
    LaterPiecesNonEmpty(t);
  }

  /** Total number of characters in all the pieces. */
  function TotalLength(parts: seq<string>): nat
  {
    if |parts| == 0 then 0 else |parts[0]| + TotalLength(parts[1..])
  }

  /** join: the pieces with sep between each neighbouring pair. */
  function Join(parts: seq<string>, sep: string): (r: string)
    ensures |parts| == 0 ==> r == ""
    ensures |parts| == 1 ==> r == parts[0]
  {
    if |parts| == 0 then ""
    else if |parts| == 1 then parts[0]
    else parts[0] + sep + Join(parts[1..], sep)
  }

  /** The joined string holds every piece and one separator between each
      neighbouring pair, and nothing else. */
  lemma {:induction false} JoinLength(parts: seq<string>, sep: string)
    requires |parts| >= 1
    ensures |Join(parts, sep)| == TotalLength(parts) + |sep| * (|parts| - 1)
  {
    if |parts| > 1 {
      JoinLength(parts[1..], sep);
      assert |sep| * (|parts| - 1) == |sep| + |sep| * (|parts| - 2);
    }
  }

  /** Whitespace-free pieces joined with a space: the first piece comes
      first, then a space, then the join of the rest. */
  lemma JoinSpaceShape(p: seq<string>)
    requires |p| >= 1 && NoWhitespace(p[0])
    ensures |Join(p, " ")| >= |p[0]| && Join(p, " ")[..|p[0]|] == p[0]
    ensures |p| == 1 ==> NoWhitespace(Join(p, " "))
    ensures |p| > 1 ==> (|Join(p, " ")| > |p[0]| && Join(p, " ")[|p[0]|] == ' '
      && Join(p, " ")[|p[0]| + 1..] == Join(p[1..], " "))
  {
  }

  /** Joining whitespace-free pieces with a space loses nothing: the joined
      string determines the pieces. So the split's pieces are exactly those
      fixed by replacing each whitespace run with a space. */
  lemma {:induction false} JoinSpaceInjective(p: seq<string>, q: seq<string>)
    requires |p| >= 1 && |q| >= 1
    requires forall i :: 0 <= i < |p| ==> NoWhitespace(p[i])
    requires forall i :: 0 <= i < |q| ==> NoWhitespace(q[i])
    requires Join(p, " ") == Join(q, " ")
    decreases |p|
    ensures p == q
  {
    JoinSpaceShape(p);
    JoinSpaceShape(q);
    if |p| > 1 && |q| > 1 && |p[0]| == |q[0]| {
      JoinSpaceInjective(p[1..], q[1..]);
      assert p == [p[0]] + p[1..];
      assert q == [q[0]] + q[1..];
    }
  }

  /** Reference for split-then-join: every maximal whitespace run becomes
      the one character c, all other characters are kept in order. */
  function ReplaceRuns(s: string, c: char): (r: string)
    decreases |s|
    ensures !IsWhitespace(c) ==> NoWhitespace(r)
    ensures |r| <= |s|
    ensures NoWhitespace(s) ==> r == s
    ensures |r| == 0 <==> |s| == 0
    ensures NoUpper(s) && !IsUpper(c) ==> NoUpper(r)
  {
    if |s| == 0 then ""
    else if IsWhitespace(s[0]) then
      var t := ReplaceRuns(TrimStart(s[1..]), c);
      assert forall k :: 1 <= k <= |t| ==> ([c] + t)[k] == t[k - 1];
      [c] + t
    else
      var t := ReplaceRuns(s[1..], c);
      assert s == [s[0]] + s[1..];
      assert forall k :: 1 <= k <= |t| ==> ([s[0]] + t)[k] == t[k - 1];
      [s[0]] + t
  }

  /** Replacing whitespace runs with an ASCII character keeps an ASCII
      string ASCII. */
  lemma {:induction false} ReplaceRunsKeepsAscii(s: string, c: char)
    requires IsAscii(s) && c < 128 as char
    decreases |s|
    ensures IsAscii(ReplaceRuns(s, c))
  {
    if |s| > 0 {
      var u := if IsWhitespace(s[0]) then TrimStart(s[1..]) else s[1..];
      assert u == s[|s| - |u|..];
      assert IsAscii(u);
      ReplaceRunsKeepsAscii(u, c);
    }
  }

  /** Joining with a character prepended to the first piece prepends it to
      the whole join. */
  lemma {:induction false} JoinPrepend(c: char, parts: seq<string>, sep: string)
    requires |parts| >= 1
    ensures Join([[c] + parts[0]] + parts[1..], sep) == [c] + Join(parts, sep)
  {
    var q := [[c] + parts[0]] + parts[1..];
    if |parts| > 1 {
      assert q[1..] == parts[1..];
    }
  }

  /** Splitting at whitespace runs and joining with the one-character
      separator c is the same as replacing every whitespace run with c.
      With c a space, the joined string determines the pieces, since no
      piece contains whitespace; with c the hyphen, this is onlyURL's step. */
  lemma {:induction false} SplitJoinReplacesRuns(s: string, c: char)
    decreases |s|
    ensures Join(SplitWhitespace(s), [c]) == ReplaceRuns(s, c)
  {
    if |s| == 0 {
    } else if IsWhitespace(s[0]) {
      var rest := TrimStart(s[1..]);
      SplitJoinReplacesRuns(rest, c);
      var parts := SplitWhitespace(rest);
      assert SplitWhitespace(s) == [""] + parts;
      assert ([""] + parts)[1..] == parts;
    } else {
      var rest := SplitWhitespace(s[1..]);
      assert SplitWhitespace(s) == [[s[0]] + rest[0]] + rest[1..];
      SplitJoinReplacesRuns(s[1..], c);
      JoinPrepend(s[0], rest, [c]);
    }
  }

  /** The split is the only list of whitespace-free pieces that, joined
      with spaces, gives the string with each whitespace run made a single
      space: this fixes every piece's contents and boundaries. */
  lemma SplitPiecesDetermined(s: string, parts: seq<string>)
    requires |parts| >= 1
    requires forall i :: 0 <= i < |parts| ==> NoWhitespace(parts[i])
    requires Join(parts, " ") == ReplaceRuns(s, ' ')
    ensures parts == SplitWhitespace(s)
  {
    SplitJoinReplacesRuns(s, ' ');
    JoinSpaceInjective(parts, SplitWhitespace(s));
  }

  /** What lowering then trimming keeps of an ASCII title: still ASCII,
      no upper case, no longer, and empty only for an all-whitespace title. */
  lemma LoweredTrimmed(title: string)
    requires IsAscii(title)
    ensures var t := Trim(ToLower(title));
      IsAscii(t) && NoUpper(t) && |t| <= |title| && (|t| == 0 <==> AllWhitespace(title))
  {
    var lowered := ToLower(title);
    TrimIsSlice(lowered);
    var lo := LeadingWhitespace(lowered);
    var t := Trim(lowered);
    assert forall k :: 0 <= k < |t| ==> t[k] == lowered[lo + k];
    assert AllWhitespace(lowered) <==> AllWhitespace(title);
  }

  /** onlyURL: lower-case, trim, split at whitespace runs, join with "-". */
  function OnlyUrl(title: string): (url: string)
    requires IsAscii(title)
    ensures NoWhitespace(url) && NoUpper(url) && IsAscii(url)
    ensures |url| <= |title|
    ensures |url| == 0 <==> AllWhitespace(title)
  {
    var trimmed := Trim(ToLower(title));
    LoweredTrimmed(title);
    SplitJoinReplacesRuns(trimmed, '-');
    ReplaceRunsKeepsAscii(trimmed, '-');
    Join(SplitWhitespace(trimmed), "-")
  }

  /** onlyURL turns the trimmed, lowered title into its hyphenated form:
      each inner whitespace run becomes exactly one hyphen. */
  lemma OnlyUrlHyphenatesRuns(title: string)
    requires IsAscii(title)
    ensures OnlyUrl(title) == ReplaceRuns(Trim(ToLower(title)), '-')
  {
    SplitJoinReplacesRuns(Trim(ToLower(title)), '-');
  }

  /** A title already in URL form (lower case, no whitespace) is its own
      URL, so applying onlyURL twice is the same as applying it once. */
  lemma OnlyUrlIdempotent(title: string)
    requires IsAscii(title)
    ensures OnlyUrl(OnlyUrl(title)) == OnlyUrl(title)
  {
    var url := OnlyUrl(title);
    assert ToLower(url) == url;
    assert Trim(url) == url;
  }
}
