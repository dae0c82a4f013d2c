/**
 * The request a client writes, as the partner of the parser: a request line
 * "METHOD target VERSION" whose target is the encoded path, optionally
 * followed by '?' and '&'-separated "key=value" pairs, then one
 * "name: value" line per header and an empty line (section 3 of RFC 7230).
 * Parsing what this writes gives the request back.
 */
module RequestFormat {
  import opened Common
  import opened Text
  import opened Percent
  import opened Protocol
  import opened Requests

  predicate NoWhitespace(s: string) {
    NoneIn(s, Whitespace)
  }

  /** A token of the request line: non-empty and free of whitespace. */
  predicate IsToken(s: string) {
    s != [] && NoWhitespace(s)
  }

  predicate IsTrimmed(s: string) {
    s != [] ==> !IsTrimmable(s[0]) && !IsTrimmable(s[|s| - 1])
  }

  /**
   * A header the parser gives back as written: a lower-case ASCII name
   * without ':' or padding (toLowerCase also folds non-ASCII capitals, which
   * Text.Lower does not), and a value without padding.
   */
  predicate WellFormedHeader(h: (string, string)) {
    h.0 != [] && IsAscii(h.0) && ':' !in h.0 && NoUpper(h.0) && IsTrimmed(h.0) && IsTrimmed(h.1)
  }

  predicate EncodablePair(kv: (string, string)) {
    IsAscii(kv.0) && IsAscii(kv.1)
  }

  function EncodePair(kv: (string, string)): string
    requires EncodablePair(kv)
  {
    Encode(kv.0) + "=" + Encode(kv.1)
  }

  function EncodePairs(qs: seq<(string, string)>): (ps: seq<string>)
    requires forall i :: 0 <= i < |qs| ==> EncodablePair(qs[i])
    ensures |ps| == |qs|
    ensures forall i :: 0 <= i < |qs| ==> ps[i] == EncodePair(qs[i])
  {
    if qs == [] then [] else [EncodePair(qs[0])] + EncodePairs(qs[1..])
  }

  /** The request target: the encoded path, and the encoded query after a '?' when there is one. */
  function EncodeTarget(path: string, qs: seq<(string, string)>): string
    requires IsAscii(path)
    requires forall i :: 0 <= i < |qs| ==> EncodablePair(qs[i])
  {
    if qs == [] then Encode(path) else Encode(path) + "?" + Join(EncodePairs(qs), '&')
  }

  function HeaderLine(h: (string, string)): string {
    h.0 + ": " + h.1
  }

  function HeaderLines(hs: seq<(string, string)>): (ls: seq<string>)
    ensures |ls| == |hs|
    ensures forall i :: 0 <= i < |hs| ==> ls[i] == HeaderLine(hs[i])
  {
    seq(|hs|, i requires 0 <= i < |hs| => HeaderLine(hs[i]))
  }

  function Lines(ls: seq<string>): (evs: seq<LineEvent>)
    ensures |evs| == |ls|
    ensures forall i :: 0 <= i < |ls| ==> evs[i] == Line(ls[i])
  {
    seq(|ls|, i requires 0 <= i < |ls| => Line(ls[i]))
  }

  /** What makes a request writable so that it parses back unchanged. */
  predicate Writable(m: string, path: string, qs: seq<(string, string)>, version: string, hs: seq<(string, string)>) {
    IsToken(m) && IsToken(version) && path != [] && IsAscii(path) &&
    (forall i :: 0 <= i < |qs| ==> EncodablePair(qs[i])) &&
    (forall i :: 0 <= i < |hs| ==> WellFormedHeader(hs[i]))
  }

  /** The lines of a request with a version token: request line, header lines, empty line. */
  function WriteRequest(m: string, path: string, qs: seq<(string, string)>, version: string, hs: seq<(string, string)>): seq<LineEvent>
    requires Writable(m, path, qs, version, hs)
  {
    [Line(Join([m, EncodeTarget(path, qs), version], ' '))] + Lines(HeaderLines(hs)) + [Line("")]
  }

  // ---------------------------------------------------------------- the target

  /** Characters an encoded target can hold. */
  predicate IsTargetChar(c: char) {
    IsEncodedChar(c) || c == '?' || c == '&' || c == '='
  }

  predicate InTargetAlphabet(s: string) {
    forall i :: 0 <= i < |s| ==> IsTargetChar(s[i])
  }

  lemma EncodeInAlphabet(s: string)
    requires IsAscii(s)
    ensures InTargetAlphabet(Encode(s))
  {
    EncodeAlphabet(s);
  }

  lemma TargetAlphabetConcat(a: string, b: string)
    requires InTargetAlphabet(a) && InTargetAlphabet(b)
    ensures InTargetAlphabet(a + b)
  {
    forall i | 0 <= i < |a + b| ensures IsTargetChar((a + b)[i]) {
      if i >= |a| {
        assert (a + b)[i] == b[i - |a|];
      }
    }
  }

  lemma {:induction false} JoinInAlphabet(ps: seq<string>, sep: char)
    requires IsTargetChar(sep)
    requires forall i :: 0 <= i < |ps| ==> InTargetAlphabet(ps[i])
    ensures InTargetAlphabet(Join(ps, sep))
  {
    if |ps| > 1 {
      JoinInAlphabet(ps[1..], sep);
      TargetAlphabetConcat(ps[0], [sep]);
      TargetAlphabetConcat(ps[0] + [sep], Join(ps[1..], sep));
    }
  }

  lemma TargetAlphabetNoWhitespace(s: string)
    requires InTargetAlphabet(s)
    ensures NoWhitespace(s)
  {
    forall i | 0 <= i < |s| ensures s[i] !in Whitespace {
      if IsEncodedChar(s[i]) {
        EncodedCharIsNoDelimiter(s[i]);
      }
    }
  }

  /** An encoded pair is one query piece that decodes to the pair. */
  lemma EncodePairParses(kv: (string, string))
    requires EncodablePair(kv)
    ensures EncodePair(kv) != [] && NoneIn(EncodePair(kv), Ampersand) && InTargetAlphabet(EncodePair(kv))
    ensures QueryPair(EncodePair(kv)) == Some(kv)
  {
    var k := Encode(kv.0);
    var v := Encode(kv.1);
    var piece := EncodePair(kv);
    EncodeAlphabet(kv.0);
    EncodeAlphabet(kv.1);
    assert piece == k + ['='] + v;
    forall i | 0 <= i < |k| ensures k[i] != '=' {
      EncodedCharIsNoDelimiter(k[i]);
    }
    IndexOfSplit(k, '=', v);
    assert piece[..|k|] == k && piece[|k| + 1..] == v;
    DecodeEncode(kv.0);
    DecodeEncode(kv.1);
    EncodeInAlphabet(kv.0);
    EncodeInAlphabet(kv.1);
    TargetAlphabetConcat(k, "=");
    TargetAlphabetConcat(k + "=", v);
    forall i | 0 <= i < |piece| ensures piece[i] !in Ampersand {
      if IsEncodedChar(piece[i]) {
        EncodedCharIsNoDelimiter(piece[i]);
      }
    }
  }

  /** The encoded pairs, joined with '&', decode to the pairs stored in order. */
  lemma QueryParses(qs: seq<(string, string)>)
    requires forall i :: 0 <= i < |qs| ==> EncodablePair(qs[i])
    ensures InTargetAlphabet(Join(EncodePairs(qs), '&'))
    ensures QueryOf(Tokens(Join(EncodePairs(qs), '&'), Ampersand), map[]) == Some(Overlay(map[], qs))
  {
    var ps := EncodePairs(qs);
    forall i | 0 <= i < |ps| ensures ps[i] != [] && NoneIn(ps[i], Ampersand) && InTargetAlphabet(ps[i]) && QueryPair(ps[i]) == Some(qs[i]) {
      EncodePairParses(qs[i]);
    }
    TokensJoin(ps, '&', Ampersand);
    JoinInAlphabet(ps, '&');
    PutEachYields(ps, map[], QueryPair, qs);
  }

  /** The written target is one request-line token, and it decodes to the path and the query. */
  lemma TargetParses(path: string, qs: seq<(string, string)>)
    requires path != [] && IsAscii(path)
    requires forall i :: 0 <= i < |qs| ==> EncodablePair(qs[i])
    ensures IsToken(EncodeTarget(path, qs))
    ensures TargetOf(EncodeTarget(path, qs)) == Some(Target(path, Overlay(map[], qs)))
  {
    var p := Encode(path);
    EncodeInAlphabet(path);
    DecodeEncode(path);
    PathHasNoQuestionMark(path);
    if qs == [] {
      TargetAlphabetNoWhitespace(p);
    } else {
      TargetWithQuery(path, qs);
    }
  }

  lemma PathHasNoQuestionMark(path: string)
    requires IsAscii(path)
    ensures '?' !in Encode(path)
  {
    var p := Encode(path);
    EncodeAlphabet(path);
    forall i | 0 <= i < |p| ensures p[i] != '?' {
      EncodedCharIsNoDelimiter(p[i]);
    }
  }

  lemma TargetWithQuery(path: string, qs: seq<(string, string)>)
    requires path != [] && IsAscii(path) && qs != []
    requires forall i :: 0 <= i < |qs| ==> EncodablePair(qs[i])
    ensures IsToken(EncodeTarget(path, qs))
    ensures TargetOf(EncodeTarget(path, qs)) == Some(Target(path, Overlay(map[], qs)))
  {
    var p := Encode(path);
    var q := Join(EncodePairs(qs), '&');
    assert EncodeTarget(path, qs) == p + "?" + q;
    QueryParses(qs);
    TargetTokenWithQuery(path, q);
    DecodeEncode(path);
    PathHasNoQuestionMark(path);
    TargetAt(p, q);
  }

  lemma TargetTokenWithQuery(path: string, q: string)
    requires IsAscii(path) && InTargetAlphabet(q)
    ensures IsToken(Encode(path) + "?" + q)
  {
    var p := Encode(path);
    EncodeInAlphabet(path);
    TargetAlphabetConcat(p, "?");
    TargetAlphabetConcat(p + "?", q);
    TargetAlphabetNoWhitespace(p + "?" + q);
  }

  /** A target with a '?' after a '?'-free prefix splits there. */
  lemma TargetAt(p: string, q: string)
    requires '?' !in p
    ensures TargetOf(p + "?" + q) == SplitTarget(p, q)
  {
    var t := p + "?" + q;
    assert t == p + ['?'] + q;
    IndexOfSplit(p, '?', q);
    assert t[..|p|] == p && t[|p| + 1..] == q;
  }

  // ---------------------------------------------------------------- headers

  /** A written header line is read back as its name and value, and is not blank. */
  lemma HeaderLineParses(h: (string, string))
    requires WellFormedHeader(h)
    ensures HeaderField(HeaderLine(h)) == Some(h)
    ensures !IsBlank(HeaderLine(h))
  {
    var (name, value) := h;
    var line := HeaderLine(h);
    assert line == name + [':'] + (" " + value);
    IndexOfSplit(name, ':', " " + value);
    assert line[..|name|] == name && line[|name| + 1..] == " " + value;
    TrimUnchanged(name);
    LowerProperties(name);
    if value == [] {
      assert " " + value == " ";
    } else {
      assert " " + value + [] == " " + value;
      TrimPadded(" ", value, []);
    }
    BlankAll(line);
    assert !IsTrimmable(line[|name|]);
  }

  lemma HeadersParse(hs: seq<(string, string)>)
    requires forall i :: 0 <= i < |hs| ==> WellFormedHeader(hs[i])
    ensures Collect(HeaderLines(hs), HeaderField) == hs
  {
    forall i | 0 <= i < |hs| ensures HeaderField(HeaderLines(hs)[i]) == Some(hs[i]) {
      HeaderLineParses(hs[i]);
    }
    CollectYields(HeaderLines(hs), HeaderField, hs);
  }

  /**
   * The header lines and the empty line after them: the header loop stores
   * every header, reads exactly those lines, and leaves what follows.
   */
  lemma HeaderBlockParses(hs: seq<(string, string)>, rest: seq<LineEvent>)
    requires forall i :: 0 <= i < |hs| ==> WellFormedHeader(hs[i])
    ensures HeaderPhase(Lines(HeaderLines(hs)) + [Line("")] + rest) == (Done(Overlay(map[], hs)), |hs| + 1)
  {
    var ls := HeaderLines(hs);
    var evs := Lines(ls) + [Line("")] + rest;
    forall i | 0 <= i < |hs| ensures evs[i] == Line(ls[i]) && !IsBlank(ls[i]) {
      HeaderLineParses(hs[i]);
    }
    assert evs[|hs|] == Line("");
    HeaderLinesRead(evs, ls);
    HeadersParse(hs);
  }

  // ---------------------------------------------------------------- requests

  /**
   * Parsing a written request gives back its method token, path, query and
   * headers (each store keeping the last value written for a key), and it
   * reads exactly the request's lines, so a request that follows is read
   * from where this one ends.
   */
  lemma ParseWritten(m: string, path: string, qs: seq<(string, string)>, version: string,
                     hs: seq<(string, string)>, rest: seq<LineEvent>)
    requires Writable(m, path, qs, version, hs)
    ensures ParseSpec(WriteRequest(m, path, qs, version, hs) + rest) ==
            (Done(Request(Some(m), Some(path), Overlay(map[], qs), Overlay(map[], hs))), |hs| + 2)
  {
    var target := EncodeTarget(path, qs);
    var line := Join([m, target, version], ' ');
    RequestLineParses(m, path, qs, version);
    var after := Lines(HeaderLines(hs)) + [Line("")] + rest;
    var block := Lines(HeaderLines(hs));
    assert WriteRequest(m, path, qs, version, hs) == [Line(line)] + block + [Line("")];
    Regroup([Line(line)], block, [Line("")], rest);
    HeaderBlockParses(hs, rest);
    HeaderLoopPhase(after);
    assert ([Line(line)] + after)[1..] == after;
  }

  lemma Regroup<T>(a: seq<T>, b: seq<T>, c: seq<T>, d: seq<T>)
    ensures a + b + c + d == a + (b + c + d)
  {
  }

  /** The written request line gives back the method token, the path and the query, and asks for headers. */
  lemma RequestLineParses(m: string, path: string, qs: seq<(string, string)>, version: string)
    requires IsToken(m) && IsToken(version) && path != [] && IsAscii(path)
    requires forall i :: 0 <= i < |qs| ==> EncodablePair(qs[i])
    ensures RequestLineOf(Join([m, EncodeTarget(path, qs), version], ' ')) ==
            Done(RequestLine(m, Target(path, Overlay(map[], qs)), true))
  {
    var target := EncodeTarget(path, qs);
    TargetParses(path, qs);
    LineTokens(m, target, version);
    LineOfTokens(Join([m, target, version], ' '), m, target, version, Target(path, Overlay(map[], qs)));
  }

  /** A line of three tokens whose second parses as a target is a request line that asks for headers. */
  lemma LineOfTokens(line: string, m: string, target: string, version: string, t: Target)
    requires Tokens(line, Whitespace) == [m, target, version] && TargetOf(target) == Some(t)
    ensures RequestLineOf(line) == Done(RequestLine(m, t, true))
  {
  }

  lemma LineTokens(m: string, target: string, version: string)
    requires IsToken(m) && IsToken(target) && IsToken(version)
    ensures Tokens(Join([m, target, version], ' '), Whitespace) == [m, target, version]
  {
    TokensJoin([m, target, version], ' ', Whitespace);
  }

  /** A written request whose method token is a method name is dispatched as that method. */
  lemma WrittenMethod(x: Method, path: string, qs: seq<(string, string)>, version: string,
                      hs: seq<(string, string)>, rest: seq<LineEvent>)
    requires Writable(MethodName(x), path, qs, version, hs)
    ensures var r := ParseSpec(WriteRequest(MethodName(x), path, qs, version, hs) + rest).0;
            r.Done? && GetMethod(r.value) == Some(x)
  {
    ParseWritten(MethodName(x), path, qs, version, hs, rest);
    LookupName(x);
  }
}
