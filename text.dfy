/** The few Python `str` operations the program relies on: `find`,
    `split(sep)`, `strip()`, `endswith`, `lower()`, `capitalize()` and
    `str()` of an integer. */
module Text {
  import opened Wrappers

  predicate StartsWith(s: string, prefix: string) {
    |prefix| <= |s| && s[..|prefix|] == prefix
  }

  predicate EndsWith(s: string, suffix: string) {
    |suffix| <= |s| && s[|s| - |suffix|..] == suffix
  }

  /** `sep` occurs in `s` starting at index `j`. */
  predicate OccursAt(s: string, sep: string, j: nat) {
    j + |sep| <= |s| && s[j..j + |sep|] == sep
  }

  /** `s.find(sep)`: the index of the leftmost occurrence of `sep`, if any. */
  function Find(s: string, sep: string): (k: Option<nat>)
    requires sep != []
    ensures k.Some? ==> OccursAt(s, sep, k.value)
    ensures k.Some? ==> forall j: nat :: j < k.value ==> !OccursAt(s, sep, j)
    ensures k.None? ==> forall j: nat :: !OccursAt(s, sep, j)
    decreases |s|
  {
    if |s| < |sep| then None
    else if s[..|sep|] == sep then Some(0)
    else
      var k := Find(s[1..], sep);
      assert forall j: nat | 1 <= j :: OccursAt(s, sep, j) <==> OccursAt(s[1..], sep, j - 1) by {
        forall j: nat | 1 <= j ensures OccursAt(s, sep, j) <==> OccursAt(s[1..], sep, j - 1) {
          if j + |sep| <= |s| { assert s[1..][j - 1..j - 1 + |sep|] == s[j..j + |sep|]; }
        }
      }
      assert !OccursAt(s, sep, 0) by { assert s[0..|sep|] == s[..|sep|]; }
      match k
      case None => None
      case Some(k') => Some(k' + 1)
  }

  /** `s.split(sep)` for a non-empty separator: cut at every occurrence of
      `sep`, scanning from the left and skipping over each one found. */
  function Split(s: string, sep: string): (parts: seq<string>)
    requires sep != []
    ensures |parts| >= 1 && StartsWith(s, parts[0])
    decreases |s|
  {
    var k := Find(s, sep);
    if k.None? then [s]
    else [s[..k.value]] + Split(s[k.value + |sep|..], sep)
  }

  /** `sep.join(parts)`. */
  function Join(parts: seq<string>, sep: string): string
    decreases |parts|
  {
    if parts == [] then []
    else if |parts| == 1 then parts[0]
    else parts[0] + sep + Join(parts[1..], sep)
  }

  /** Splitting at the first separator found: the text before it, then the
      pieces of what follows it. */
  lemma SplitFound(s: string, sep: string, k: nat)
    requires sep != [] && Find(s, sep) == Some(k)
    ensures k + |sep| <= |s| && s == s[..k] + sep + s[k + |sep|..]
    ensures Split(s, sep) == [s[..k]] + Split(s[k + |sep|..], sep)
  {
    assert OccursAt(s, sep, k);
    assert s[k..k + |sep|] == sep;
    assert s == s[..k] + s[k..k + |sep|] + s[k + |sep|..];
  }

  /** Joining the pieces with the separator gives back the original text. */
  lemma {:induction false} JoinSplit(s: string, sep: string)
    requires sep != []
    ensures Join(Split(s, sep), sep) == s
    decreases |s|
  {
    var found := Find(s, sep);
    if found.Some? {
      var k := found.value;
      var tail := s[k + |sep|..];
      SplitFound(s, sep, k);
      var rest := Split(tail, sep);
      JoinSplit(tail, sep);
      var parts := [s[..k]] + rest;
      assert parts[1..] == rest;
    }
  }

  /** Every separator between two pieces is the leftmost occurrence in the
      text that remains from the start of the piece before it, and the last
      piece holds no separator at all. Together with JoinSplit this pins the
      pieces down uniquely, even for a separator that overlaps itself. */
  lemma {:induction false} SplitLeftmost(s: string, sep: string, i: nat)
    requires sep != []
    requires i < |Split(s, sep)|
    ensures var parts := Split(s, sep);
      Find(Join(parts[i..], sep), sep) ==
        if i + 1 < |parts| then Some(|parts[i]|) else None
    decreases |s|
  {
    var parts := Split(s, sep);
    JoinSplit(s, sep);
    var found := Find(s, sep);
    if found.Some? {
      var k := found.value;
      var tail := s[k + |sep|..];
      assert parts == [s[..k]] + Split(tail, sep);
      if i > 0 {
        SplitLeftmost(tail, sep, i - 1);
        assert parts[i..] == Split(tail, sep)[i - 1..];
      } else {
        assert parts[0..] == parts;
      }
    }
  }

  /** Once the first separator is found at k, the second piece is the first
      piece of what follows it. */
  lemma SplitAfterFirst(s: string, sep: string, k: nat)
    requires sep != [] && Find(s, sep) == Some(k)
    ensures |Split(s, sep)| >= 2
    ensures Split(s, sep)[1] == Split(s[k + |sep|..], sep)[0]
  {
    SplitFound(s, sep, k);
  }

  /** A file name `y + " - " + rest + ext` ends in `ext`, and its first
      " - "-separated field is `y` when `y` holds no space. */
  lemma LeadingFieldRecoverable(y: string, rest: string, ext: string)
    ensures EndsWith(y + " - " + rest + ext, ext)
    ensures StartsWith(y + " - " + rest + ext, y + " - ")
    ensures ' ' !in y ==> Split(y + " - " + rest + ext, " - ")[0] == y
  {
    var name := y + " - " + rest + ext;
    assert name[|name| - |ext|..] == ext;
    assert name == y + " - " + (rest + ext);
    assert name[..|y + " - "|] == y + " - ";
    if ' ' !in y {
      FirstSeparatorAfterWord(y, " - ", rest + ext);
      assert Split(name, " - ")[0] == name[..|y|];
      assert name[..|y|] == y;
    }
  }

  /** In `y + sep + rest`, with `sep` starting with a space and `y` holding
      none, the first `sep` is the one right after `y`. */
  lemma FirstSeparatorAfterWord(y: string, sep: string, rest: string)
    requires sep != [] && sep[0] == ' ' && ' ' !in y
    ensures Find(y + sep + rest, sep) == Some(|y|)
  {
    var s := y + sep + rest;
    assert OccursAt(s, sep, |y|) by { assert s[|y|..|y| + |sep|] == sep; }
    forall j: nat | j < |y| ensures !OccursAt(s, sep, j) {
      if j + |sep| <= |s| { assert s[j..j + |sep|][0] == y[j]; }
    }
  }

  /** For a one-character separator that the text before it does not hold,
      the first separator found is the one right after that text. */
  lemma FindCharAfter(p: string, c: char, t: string)
    requires c !in p
    ensures Find(p + [c] + t, [c]) == Some(|p|)
  {
    var s := p + [c] + t;
    assert OccursAt(s, [c], |p|) by { assert s[|p|..|p| + 1] == [c]; }
    forall j: nat | j < |p| ensures !OccursAt(s, [c], j) {
      assert s[j..j + 1] == [p[j]];
    }
  }

  lemma FindChar(p: string, c: char)
    ensures Find(p, [c]).Some? <==> c in p
  {
    forall j: nat | j + 1 <= |p| ensures OccursAt(p, [c], j) <==> p[j] == c {
      assert p[j..j + 1] == [p[j]];
    }
  }

  /** `str.isspace()` for one character: the whitespace set Python's
      `strip()` removes. */
  predicate IsSpace(c: char) {
    '\t' <= c <= '\r' || '\U{1c}' <= c <= ' ' || c == '\U{85}' || c == '\U{a0}' ||
    c == '\U{1680}' || '\U{2000}' <= c <= '\U{200a}' || c == '\U{2028}' ||
    c == '\U{2029}' || c == '\U{202f}' || c == '\U{205f}' || c == '\U{3000}'
  }

  /** Number of whitespace characters at the front of `s`. */
  function LeadingSpace(s: string): (n: nat)
    ensures n <= |s|
    ensures forall i :: 0 <= i < n ==> IsSpace(s[i])
    ensures n < |s| ==> !IsSpace(s[n])
    decreases |s|
  {
    if s != [] && IsSpace(s[0]) then
      var n := LeadingSpace(s[1..]);
      assert forall i :: 1 <= i < n + 1 ==> s[i] == s[1..][i - 1];
      n + 1
    else 0
  }

  /** Length of `s` once its trailing whitespace is dropped. */
  function TrailingSpaceStart(s: string): (m: nat)
    ensures m <= |s|
    ensures forall i :: m <= i < |s| ==> IsSpace(s[i])
    ensures m > 0 ==> !IsSpace(s[m - 1])
    decreases |s|
  {
    if s != [] && IsSpace(s[|s| - 1]) then TrailingSpaceStart(s[..|s| - 1]) else |s|
  }

  /** `s.strip()`: `s` without its leading and trailing whitespace. */
  function Strip(s: string): (r: string)
    ensures |r| <= |s|
    ensures r != [] ==> !IsSpace(r[0]) && !IsSpace(r[|r| - 1])
    ensures (forall i :: 0 <= i < |s| ==> IsSpace(s[i])) ==> r == []
  {
    var t := s[LeadingSpace(s)..];
    t[..TrailingSpaceStart(t)]
  }

  /** Strip removes exactly the surrounding whitespace: a text whose ends
      are not whitespace comes back whole from between any whitespace. */
  lemma {:induction false} StripSurrounded(front: string, t: string, back: string)
    requires forall i :: 0 <= i < |front| ==> IsSpace(front[i])
    requires forall i :: 0 <= i < |back| ==> IsSpace(back[i])
    requires t != [] ==> !IsSpace(t[0]) && !IsSpace(t[|t| - 1])
    ensures Strip(front + t + back) == t
  {
    var s := front + t + back;
    if t == [] {
      assert forall i :: 0 <= i < |s| ==> IsSpace(s[i]) by {
        forall i | 0 <= i < |s| ensures IsSpace(s[i]) {
          if i < |front| { assert s[i] == front[i]; } else { assert s[i] == back[i - |front|]; }
        }
      }
    } else {
      var n := LeadingSpace(s);
      assert forall i :: 0 <= i < |front| ==> s[i] == front[i];
      assert s[|front|] == t[0];
      assert n == |front|;
      var u := s[n..];
      assert u == t + back;
      var m := TrailingSpaceStart(u);
      assert forall i :: |t| <= i < |u| ==> u[i] == back[i - |t|];
      assert u[|t| - 1] == t[|t| - 1];
      assert m == |t|;
    }
  }

  /** Stripping twice is stripping once. */
  lemma StripIdempotent(s: string)
    ensures Strip(Strip(s)) == Strip(s)
  {
    StripSurrounded([], Strip(s), []);
    assert [] + Strip(s) + [] == Strip(s);
  }

  function LowerChar(c: char): char {
    if 'A' <= c <= 'Z' then (c as int + 32) as char else c
  }

  function UpperChar(c: char): char {
    if 'a' <= c <= 'z' then (c as int - 32) as char else c
  }

  /** `s.lower()`, for ASCII letters: no capital letter is left, and each
      character is the input's up to case. */
  function Lower(s: string): (r: string)
    ensures |r| == |s|
    ensures forall i :: 0 <= i < |r| ==> !('A' <= r[i] <= 'Z') && UpperChar(r[i]) == UpperChar(s[i])
  {
    seq(|s|, i requires 0 <= i < |s| => LowerChar(s[i]))
  }

  /** `s.capitalize()`, for ASCII letters: first character upper-case, the
      rest lower-case. */
  function Capitalize(s: string): (r: string)
    ensures |r| == |s|
    ensures r != [] ==> !('a' <= r[0] <= 'z') && r[0] == UpperChar(s[0])
    ensures forall i :: 1 <= i < |r| ==> !('A' <= r[i] <= 'Z') && r[i] == LowerChar(s[i])
  {
    if s == [] then [] else [UpperChar(s[0])] + Lower(s[1..])
  }

  /** Capitalizing an already capitalized text changes nothing. */
  lemma CapitalizeIdempotent(s: string)
    ensures Capitalize(Capitalize(s)) == Capitalize(s)
  {
    var c := Capitalize(s);
    if s != [] {
      assert Lower(c[1..]) == c[1..];
    }
  }

  function DigitChar(d: nat): char
    requires d < 10
  {
    ('0' as int + d) as char
  }

  /** The number a string of decimal digits denotes, most significant
      digit first. */
  function DigitsValue(digits: string): int
    decreases |digits|
  {
    if digits == [] then 0
    else 10 * DigitsValue(digits[..|digits| - 1]) + (digits[|digits| - 1] as int - '0' as int)
  }

  /** `str(n)` for a natural number: decimal digits that denote n, with no
      leading zero (0 is the single digit "0"). */
  function NatToString(n: nat): (r: string)
    ensures r != []
    ensures forall i :: 0 <= i < |r| ==> '0' <= r[i] <= '9'
    ensures DigitsValue(r) == n
    ensures r[0] == '0' <==> n == 0
    ensures r[0] == '0' ==> |r| == 1
    decreases n
  {
    if n < 10 then [DigitChar(n)]
    else
      var front := NatToString(n / 10);
      var r := front + [DigitChar(n % 10)];
      assert r[..|r| - 1] == front;
      r
  }

  /** `str(i)` for an integer: a minus sign exactly for negatives, then the
      digits of its magnitude. */
  function IntToString(i: int): (r: string)
    ensures r != [] && ' ' !in r
    ensures r[0] == '-' <==> i < 0
    ensures var digits := if i < 0 then r[1..] else r;
      digits != [] && (forall k :: 0 <= k < |digits| ==> '0' <= digits[k] <= '9') &&
      (digits[0] == '0' ==> |digits| == 1) &&
      DigitsValue(digits) == (if i < 0 then -i else i)
  {
    if i < 0 then "-" + NatToString(-i) else NatToString(i)
  }
}
