/**
 * The java.lang.String and java.util.StringTokenizer operations the parser
 * relies on: trim, toLowerCase(Locale.US), indexOf and tokenising.
 */
module Text {

  /** String.trim removes every character whose code is at most U+0020. */
  predicate IsTrimmable(c: char) {
    c <= ' '
  }

  function TrimStart(s: string): (r: string)
    ensures |r| <= |s| && r == s[|s| - |r|..]
    ensures r != [] ==> !IsTrimmable(r[0])
  {
    if s != [] && IsTrimmable(s[0]) then TrimStart(s[1..]) else s
  }

  /** What TrimStart drops is trimmable. */
  lemma {:induction false} TrimStartDrops(s: string)
    ensures forall i :: 0 <= i < |s| - |TrimStart(s)| ==> IsTrimmable(s[i])
  {
    if s != [] && IsTrimmable(s[0]) {
      TrimStartDrops(s[1..]);
      forall i | 1 <= i < |s| - |TrimStart(s)| ensures IsTrimmable(s[i]) {
        assert s[i] == s[1..][i - 1];
      }
    }
  }

  function TrimEnd(s: string): (r: string)
    ensures |r| <= |s| && r == s[..|r|]
    ensures r != [] ==> !IsTrimmable(r[|r| - 1])
  {
    if s != [] && IsTrimmable(s[|s| - 1]) then TrimEnd(s[..|s| - 1]) else s
  }

  /** What TrimEnd drops is trimmable. */
  lemma {:induction false} TrimEndDrops(s: string)
    ensures forall i :: |TrimEnd(s)| <= i < |s| ==> IsTrimmable(s[i])
  {
    if s != [] && IsTrimmable(s[|s| - 1]) {
      TrimEndDrops(s[..|s| - 1]);
    }
  }

  /** String.trim: the text between the leading and the trailing run of trimmable characters. */
  function Trim(s: string): (r: string)
    ensures |r| <= |s|
    ensures r != [] ==> !IsTrimmable(r[0]) && !IsTrimmable(r[|r| - 1])
  {
    TrimEnd(TrimStart(s))
  }

  /** A line is blank for the header loop exactly when every character is trimmable. */
  lemma TrimEmptyIff(s: string)
    ensures Trim(s) == [] <==> forall i :: 0 <= i < |s| ==> IsTrimmable(s[i])
  {
    TrimStartDrops(s);
    TrimEndDrops(TrimStart(s));
  }

  /** Every character is trimmable: the text String.trim reduces to "". */
  predicate IsBlank(s: string)
    decreases |s|
  {
    s == [] || (IsTrimmable(s[0]) && IsBlank(s[1..]))
  }

  lemma {:induction false} BlankAll(s: string)
    ensures IsBlank(s) <==> forall i :: 0 <= i < |s| ==> IsTrimmable(s[i])
    decreases |s|
  {
    if s != [] {
      BlankAll(s[1..]);
      assert forall i :: 1 <= i < |s| ==> s[i] == s[1..][i - 1];
    }
  }

  /** A blank line is one that trims to the empty string. */
  lemma TrimBlank(s: string)
    ensures Trim(s) == [] <==> IsBlank(s)
  {
    TrimEmptyIff(s);
    BlankAll(s);
  }

  /** Text that neither starts nor ends with a trimmable character is left alone. */
  lemma TrimUnchanged(s: string)
    requires s != [] ==> !IsTrimmable(s[0]) && !IsTrimmable(s[|s| - 1])
    ensures Trim(s) == s
  {
  }

  /** Trimming after padding with spaces on either side gives the text back. */
  lemma {:induction false} TrimPadded(lead: string, s: string, trail: string)
    requires forall i :: 0 <= i < |lead| ==> IsTrimmable(lead[i])
    requires forall i :: 0 <= i < |trail| ==> IsTrimmable(trail[i])
    requires s != [] && !IsTrimmable(s[0]) && !IsTrimmable(s[|s| - 1])
    ensures Trim(lead + s + trail) == s
  {
    TrimStartPadded(lead, s + trail);
    assert TrimStart(lead + s + trail) == s + trail by {
      assert lead + s + trail == lead + (s + trail);
    }
    TrimEndPadded(s, trail);
  }

  lemma {:induction false} TrimStartPadded(lead: string, s: string)
    requires forall i :: 0 <= i < |lead| ==> IsTrimmable(lead[i])
    requires s != [] && !IsTrimmable(s[0])
    ensures TrimStart(lead + s) == s
  {
    if lead != [] {
      assert (lead + s)[1..] == lead[1..] + s;
      TrimStartPadded(lead[1..], s);
    } else {
      assert lead + s == s;
    }
  }

  lemma {:induction false} TrimEndPadded(s: string, trail: string)
    requires forall i :: 0 <= i < |trail| ==> IsTrimmable(trail[i])
    requires s != [] && !IsTrimmable(s[|s| - 1])
    ensures TrimEnd(s + trail) == s
  {
    if trail != [] {
      assert (s + trail)[..|s + trail| - 1] == s + trail[..|trail| - 1];
      TrimEndPadded(s, trail[..|trail| - 1]);
    } else {
      assert s + trail == s;
    }
  }

  predicate IsUpperAscii(c: char) {
    'A' <= c <= 'Z'
  }

  function LowerChar(c: char): (r: char)
    ensures !IsUpperAscii(r)
    ensures r == c || (IsUpperAscii(c) && r as int == c as int + 32)
  {
    if IsUpperAscii(c) then (c as int + 32) as char else c
  }

  /** String.toLowerCase(Locale.US), restricted to the ASCII letters. */
  function Lower(s: string): (r: string)
    ensures |r| == |s|
  {
    if s == [] then [] else [LowerChar(s[0])] + Lower(s[1..])
  }

  /** Lowering works character by character. */
  lemma {:induction false} LowerAt(s: string)
    ensures forall i :: 0 <= i < |s| ==> Lower(s)[i] == LowerChar(s[i])
    decreases |s|
  {
    if s != [] {
      LowerAt(s[1..]);
      forall i | 1 <= i < |s| ensures Lower(s)[i] == LowerChar(s[i]) {
        assert Lower(s)[i] == Lower(s[1..])[i - 1];
      }
    }
  }

  predicate NoUpper(s: string) {
    forall i :: 0 <= i < |s| ==> !IsUpperAscii(s[i])
  }

  /** Lowering leaves no upper-case ASCII letter and changes nothing already lower-case. */
  lemma LowerProperties(s: string)
    ensures NoUpper(Lower(s))
    ensures NoUpper(s) ==> Lower(s) == s
    ensures Lower(Lower(s)) == Lower(s)
  {
    LowerAt(s);
    LowerAt(Lower(s));
  }

  /** String.indexOf(char): the first position of c, or -1. */
  function IndexOf(s: string, c: char): (r: int)
    ensures -1 <= r < |s|
    ensures r >= 0 ==> s[r] == c
  {
    if s == [] then -1
    else if s[0] == c then 0
    else
      var k := IndexOf(s[1..], c);
      if k < 0 then -1 else k + 1
  }

  /** A position is found exactly when c occurs. */
  lemma {:induction false} IndexOfFound(s: string, c: char)
    ensures IndexOf(s, c) >= 0 <==> c in s
    decreases |s|
  {
    if s != [] && s[0] != c {
      IndexOfFound(s[1..], c);
      assert c in s <==> c in s[1..] by {
        assert s == [s[0]] + s[1..];
      }
    }
  }

  /** Nothing before the position found is c: it is the first occurrence. */
  lemma {:induction false} IndexOfFirst(s: string, c: char)
    ensures IndexOf(s, c) >= 0 ==> c !in s[..IndexOf(s, c)]
    decreases |s|
  {
    if s != [] && s[0] != c {
      IndexOfFirst(s[1..], c);
      var k := IndexOf(s[1..], c);
      if k >= 0 {
        assert s[..k + 1] == [s[0]] + s[1..][..k];
      }
    }
  }

  /** The first occurrence of c is where it follows a prefix free of c. */
  lemma IndexOfSplit(prefix: string, c: char, rest: string)
    requires c !in prefix
    ensures IndexOf(prefix + [c] + rest, c) == |prefix|
  {
    var s := prefix + [c] + rest;
    IndexOfFound(s, c);
    IndexOfFirst(s, c);
    assert s[|prefix|] == c;
    assert s[..|prefix|] == prefix;
  }

  /** The delimiters of a StringTokenizer built without an explicit set. */
  const Whitespace: set<char> := {' ', '\t', '\n', '\r', 12 as char}

  predicate NoneIn(s: string, delims: set<char>) {
    forall i :: 0 <= i < |s| ==> s[i] !in delims
  }

  /** Length of the leading run of non-delimiters. */
  function Span(s: string, delims: set<char>): (n: nat)
    ensures n <= |s|
  {
    if s == [] || s[0] in delims then 0 else 1 + Span(s[1..], delims)
  }

  /** The run holds no delimiter, and it stops at one or at the end. */
  lemma {:induction false} SpanStops(s: string, delims: set<char>)
    ensures NoneIn(s[..Span(s, delims)], delims)
    ensures Span(s, delims) < |s| ==> s[Span(s, delims)] in delims
    decreases |s|
  {
    if s != [] && s[0] !in delims {
      SpanStops(s[1..], delims);
      assert s[..Span(s, delims)] == [s[0]] + s[1..][..Span(s[1..], delims)];
    }
  }

  /** StringTokenizer: the maximal runs of non-delimiter characters, in order. */
  function Tokens(s: string, delims: set<char>): (ts: seq<string>)
    ensures |ts| <= |s|
    decreases |s|
  {
    if s == [] then []
    else if s[0] in delims then Tokens(s[1..], delims)
    else
      var n := Span(s, delims);
      if n == |s| then
        assert s[..n] == s;
        [s]
      else
        [s[..n]] + Tokens(s[n..], delims)
  }

  /** Every token is non-empty and free of delimiters; a delimiter-free string is its only token. */
  lemma {:induction false} TokensShape(s: string, delims: set<char>)
    ensures forall i :: 0 <= i < |Tokens(s, delims)| ==>
              Tokens(s, delims)[i] != [] && NoneIn(Tokens(s, delims)[i], delims)
    ensures NoneIn(s, delims) && s != [] ==> Tokens(s, delims) == [s]
    decreases |s|
  {
    if s == [] {
    } else if s[0] in delims {
      TokensShape(s[1..], delims);
    } else {
      var n := Span(s, delims);
      SpanStops(s, delims);
      if n < |s| {
        TokensShape(s[n..], delims);
      }
    }
  }

  /** A token followed by one delimiter is split off on its own. */
  lemma TokensCons(t: string, d: char, rest: string, delims: set<char>)
    requires t != [] && NoneIn(t, delims) && d in delims
    ensures Tokens(t + [d] + rest, delims) == [t] + Tokens(rest, delims)
  {
    var s := t + [d] + rest;
    SpanOf(t, [d] + rest, delims);
    assert s == t + ([d] + rest);
    assert s[..|t|] == t;
    assert s[|t|..] == [d] + rest;
    assert ([d] + rest)[1..] == rest;
  }

  lemma SpanOf(t: string, rest: string, delims: set<char>)
    requires NoneIn(t, delims) && rest != [] && rest[0] in delims
    ensures Span(t + rest, delims) == |t|
    decreases |t|
  {
    if t != [] {
      assert (t + rest)[1..] == t[1..] + rest;
      SpanOf(t[1..], rest, delims);
    } else {
      assert t + rest == rest;
    }
  }

  /** The pieces joined with a separator between each two neighbours. */
  function Join(ts: seq<string>, sep: char): string {
    if ts == [] then []
    else if |ts| == 1 then ts[0]
    else ts[0] + [sep] + Join(ts[1..], sep)
  }

  /** Tokenising what Join built gives the pieces back, when none is empty or holds a delimiter. */
  lemma {:induction false} TokensJoin(ts: seq<string>, sep: char, delims: set<char>)
    requires sep in delims
    requires forall i :: 0 <= i < |ts| ==> ts[i] != [] && NoneIn(ts[i], delims)
    ensures Tokens(Join(ts, sep), delims) == ts
  {
    if |ts| == 1 {
      TokensShape(ts[0], delims);
    } else if |ts| > 1 {
      TokensCons(ts[0], sep, Join(ts[1..], sep), delims);
      TokensJoin(ts[1..], sep, delims);
    }
  }
}
