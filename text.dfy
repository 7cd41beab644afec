/**
  String helpers with the semantics of the JavaScript string operations the
  application relies on: `trim`, `toUpperCase`, `split` on one character,
  `slice(0, n)`, and the avatar initials built from `split(' ')`.
*/
module Text {

  /** The characters JavaScript's `String.prototype.trim` removes (WhiteSpace and LineTerminator). */
  predicate IsWhitespace(c: char) {
    || c == ' ' || c == '\t' || c == '\n' || c == '\r'
    || c == '\U{B}' || c == '\U{C}' || c == '\U{A0}' || c == '\U{1680}'
    || ('\U{2000}' <= c <= '\U{200A}')
    || c == '\U{2028}' || c == '\U{2029}' || c == '\U{202F}' || c == '\U{205F}'
    || c == '\U{3000}' || c == '\U{FEFF}'
  }

  /** The index of the first non-whitespace character of `s` at or after `lo`, or `|s|` when there is none. */
  function TextStart(s: string, lo: nat): (k: nat)
    requires lo <= |s|
    ensures lo <= k <= |s|
    ensures forall i :: lo <= i < k ==> IsWhitespace(s[i])
    ensures k < |s| ==> !IsWhitespace(s[k])
    decreases |s| - lo
  {
    if lo < |s| && IsWhitespace(s[lo]) then TextStart(s, lo + 1) else lo
  }

  /** The index just after the last non-whitespace character of `s[lo..hi]`, or `lo` when there is none. */
  function TextEnd(s: string, lo: nat, hi: nat): (e: nat)
    requires lo <= hi <= |s|
    ensures lo <= e <= hi
    ensures forall i :: e <= i < hi ==> IsWhitespace(s[i])
    ensures lo < e ==> !IsWhitespace(s[e - 1])
    decreases hi
  {
    if lo < hi && IsWhitespace(s[hi - 1]) then TextEnd(s, lo, hi - 1) else hi
  }

  /**
    JavaScript `s.trim()`: the infix of `s` left after dropping whitespace at
    both ends; it neither starts nor ends with whitespace.
  */
  function Trim(s: string): (r: string)
    ensures |r| <= |s|
    ensures var k := TextStart(s, 0);
      && k + |r| <= |s|
      && r == s[k..k + |r|]
      && (forall i :: 0 <= i < k ==> IsWhitespace(s[i]))
      && (forall i :: k + |r| <= i < |s| ==> IsWhitespace(s[i]))
    ensures r == [] || (!IsWhitespace(r[0]) && !IsWhitespace(r[|r| - 1]))
  {
    var k := TextStart(s, 0);
    s[k..TextEnd(s, k, |s|)]
  }

  /** JavaScript's `!s.trim()`: the trimmed string is empty. */
  predicate IsBlank(s: string) {
    Trim(s) == []
  }

  /** A string is blank exactly when every character of it is whitespace. */
  lemma BlankIffAllWhitespace(s: string)
    ensures IsBlank(s) <==> forall i :: 0 <= i < |s| ==> IsWhitespace(s[i])
  {
    if !IsBlank(s) {
      var k := TextStart(s, 0);
      assert s[k] == Trim(s)[0];
    }
  }

  /** Trimming twice is trimming once. */
  lemma TrimIdempotent(s: string)
    ensures Trim(Trim(s)) == Trim(s)
  {
    var t := Trim(s);
    if t != [] {
      assert TextStart(t, 0) == 0;
      assert TextEnd(t, 0, |t|) == |t|;
      assert t[0..|t|] == t;
    }
  }

  /** JavaScript `toUpperCase` on one character, for the ASCII letters. */
  function UpperChar(c: char): (u: char)
    ensures 'a' <= c <= 'z' ==> 'A' <= u <= 'Z' && u as int - c as int == 'A' as int - 'a' as int
    ensures !('a' <= c <= 'z') ==> u == c
  {
    if 'a' <= c <= 'z' then (c as int - 'a' as int + 'A' as int) as char else c
  }

  /** JavaScript `s.toUpperCase()` (ASCII letters only): same length, letter by letter. */
  function ToUpper(s: string): (r: string)
    ensures |r| == |s|
  {
    seq(|s|, i requires 0 <= i < |s| => UpperChar(s[i]))
  }

  /** Upper-casing is idempotent, and leaves a string without lower-case ASCII letters unchanged. */
  lemma ToUpperIdempotent(s: string)
    ensures ToUpper(ToUpper(s)) == ToUpper(s)
    ensures (forall i :: 0 <= i < |s| ==> !('a' <= s[i] <= 'z')) ==> ToUpper(s) == s
  {
  }

  /** JavaScript `s.slice(0, n)`: the first `n` characters, or all of `s` when it is shorter. */
  function Prefix(s: string, n: nat): (r: string)
    ensures |r| == if |s| < n then |s| else n
    ensures r == s[..|r|]
  {
    if |s| <= n then s else s[..n]
  }

  /**
    JavaScript `s.split(sep)` for a one-character separator: the maximal runs
    of non-separator characters, one more part than there are separators.
  */
  function Split(s: string, sep: char): (parts: seq<string>)
    ensures |parts| >= 1
    ensures forall i, j :: 0 <= i < |parts| && 0 <= j < |parts[i]| ==> parts[i][j] != sep
  {
    if s == [] then [""]
    else
      var rest := Split(s[1..], sep);
      if s[0] == sep then [""] + rest
      else [[s[0]] + rest[0]] + rest[1..]
  }

  /** JavaScript `parts.join(sep)`. */
  function Join(parts: seq<string>, sep: char): string {
    if |parts| == 0 then ""
    else if |parts| == 1 then parts[0]
    else parts[0] + [sep] + Join(parts[1..], sep)
  }

  /** Splitting and joining on the same separator gives back the string. */
  lemma {:induction false} JoinSplit(s: string, sep: char)
    ensures Join(Split(s, sep), sep) == s
  {
    if s != [] {
      var rest := Split(s[1..], sep);
      JoinSplit(s[1..], sep);
      if s[0] == sep {
        assert ([""] + rest)[1..] == rest;
      } else {
        var parts := [[s[0]] + rest[0]] + rest[1..];
        if |rest| > 1 {
          assert parts[1..] == rest[1..];
        }
      }
    }
  }

  /** The part of `s` before its first `sep`, as `s.split(sep)[0]`. */
  function Before(s: string, sep: char): (r: string)
    ensures |r| <= |s| && r == s[..|r|]
    ensures sep !in r
    ensures |r| < |s| ==> s[|r|] == sep
  {
    if s == [] || s[0] == sep then "" else [s[0]] + Before(s[1..], sep)
  }

  /** `Before` is the first part of `split`. */
  lemma {:induction false} BeforeIsFirstPart(s: string, sep: char)
    ensures Split(s, sep)[0] == Before(s, sep)
  {
    if s != [] && s[0] != sep {
      BeforeIsFirstPart(s[1..], sep);
    }
  }

  /** The first character of each part, as `parts.map(n => n[0]).join('')`: an empty part gives nothing. */
  function Heads(parts: seq<string>): string {
    if parts == [] then ""
    else (if parts[0] == [] then "" else [parts[0][0]]) + Heads(parts[1..])
  }

  /**
    Avatar initials: `name.split(' ').map(n => n[0]).join('')`. They are
    exactly the characters that begin a space-separated word of the name, in
    order, and never longer than the name.
  */
  function Initials(name: string): (r: string)
    ensures r == WordStarts(name, true)
    ensures |r| <= |name|
  {
    HeadsOfSplit(name);
    WordStartsLength(name, true);
    Heads(Split(name, ' '))
  }

  /**
    Reference definition of the initials: every non-space character that
    starts the string (when `atStart`) or follows a space.
  */
  function WordStarts(s: string, atStart: bool): string {
    if s == [] then ""
    else (if s[0] != ' ' && atStart then [s[0]] else "") + WordStarts(s[1..], s[0] == ' ')
  }

  lemma {:induction false} HeadsOfSplit(s: string)
    ensures Heads(Split(s, ' ')) == WordStarts(s, true)
    ensures Heads(Split(s, ' ')[1..]) == WordStarts(s, false)
  {
    if s != [] {
      var rest := Split(s[1..], ' ');
      HeadsOfSplit(s[1..]);
      if s[0] == ' ' {
        assert ([""] + rest)[1..] == rest;
      } else {
        var parts := [[s[0]] + rest[0]] + rest[1..];
        assert parts[1..] == rest[1..];
        assert Heads(rest) == (if rest[0] == [] then "" else [rest[0][0]]) + Heads(rest[1..]);
      }
    }
  }

  lemma {:induction false} WordStartsLength(s: string, atStart: bool)
    ensures |WordStarts(s, atStart)| <= |s|
  {
    if s != [] {
      WordStartsLength(s[1..], s[0] == ' ');
    }
  }
}
