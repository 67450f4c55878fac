/** The string primitives the FASTA toolkit relies on, restricted to ASCII:
    Python's `str.strip`, `str.upper`, `str.lower`, `str.join`, `int.__str__`
    and the line iteration of a text file. */
module Text {

  /** Python's `str.isspace` on ASCII characters: tab, line feed, vertical tab,
      form feed, carriage return, the four information separators and space. */
  predicate IsSpace(c: char) {
    9 <= c as int <= 13 || 28 <= c as int <= 31 || c == ' '
  }

  /** Python's `str.lstrip()` with no argument. */
  function StripLeft(s: string): string {
    if s != [] && IsSpace(s[0]) then StripLeft(s[1..]) else s
  }

  /** Python's `str.rstrip()` with no argument. */
  function StripRight(s: string): string {
    if s != [] && IsSpace(s[|s| - 1]) then StripRight(s[..|s| - 1]) else s
  }

  /** Python's `str.strip()` with no argument. */
  function Strip(s: string): string {
    StripRight(StripLeft(s))
  }

  /** `lstrip` removes exactly the leading whitespace: what it drops is whitespace and what
      it keeps is a suffix that does not start with whitespace. */
  lemma {:induction false} StripLeftSpec(s: string)
    ensures |StripLeft(s)| <= |s| && StripLeft(s) == s[|s| - |StripLeft(s)|..]
    ensures StripLeft(s) == [] || !IsSpace(StripLeft(s)[0])
    ensures forall k :: 0 <= k < |s| - |StripLeft(s)| ==> IsSpace(s[k])
  {
    if s != [] && IsSpace(s[0]) {
      var r := StripLeft(s[1..]);
      StripLeftSpec(s[1..]);
      assert StripLeft(s) == r;
      assert s[1..][|s| - 1 - |r|..] == s[|s| - |r|..];
      forall k | 0 <= k < |s| - |r| ensures IsSpace(s[k]) {
        if k > 0 {
          assert s[k] == s[1..][k - 1];
        }
      }
    }
  }

  /** `rstrip` removes exactly the trailing whitespace. */
  lemma {:induction false} StripRightSpec(s: string)
    ensures |StripRight(s)| <= |s| && StripRight(s) == s[..|StripRight(s)|]
    ensures StripRight(s) == [] || !IsSpace(StripRight(s)[|StripRight(s)| - 1])
    ensures forall k :: |StripRight(s)| <= k < |s| ==> IsSpace(s[k])
  {
    if s != [] && IsSpace(s[|s| - 1]) {
      StripRightSpec(s[..|s| - 1]);
    }
  }

  predicate NoSpace(s: string) {
    forall k :: 0 <= k < |s| ==> !IsSpace(s[k])
  }

  lemma StripNoSpace(s: string)
    requires NoSpace(s)
    ensures Strip(s) == s
  {
  }

  /** Stripping a line whose only whitespace is its trailing line break. */
  lemma StripLine(s: string)
    requires s == [] || !IsSpace(s[|s| - 1])
    requires s == [] || !IsSpace(s[0])
    ensures Strip(s + "\n") == s
  {
    if s == [] {
      assert StripLeft("\n") == "";
    } else {
      assert StripLeft(s + "\n") == s + "\n";
      assert (s + "\n")[..|s|] == s;
      assert StripRight(s + "\n") == StripRight(s);
    }
  }

  predicate StartsWith(s: string, c: char) {
    |s| > 0 && s[0] == c
  }

  function LowerChar(c: char): char {
    if 'A' <= c <= 'Z' then (c as int + 32) as char else c
  }

  function UpperChar(c: char): char {
    if 'a' <= c <= 'z' then (c as int - 32) as char else c
  }

  /** Python's `str.lower()` on ASCII text. The ensures only expose the pointwise definition
      to callers; FoldKeepsSymbols and FoldIdempotent state what folding does. */
  function ToLower(s: string): (r: string)
    ensures |r| == |s|
    ensures forall k :: 0 <= k < |s| ==> r[k] == LowerChar(s[k])
  {
    seq(|s|, k requires 0 <= k < |s| => LowerChar(s[k]))
  }

  /** Python's `str.upper()` on ASCII text, exposed pointwise like ToLower. */
  function ToUpper(s: string): (r: string)
    ensures |r| == |s|
    ensures forall k :: 0 <= k < |s| ==> r[k] == UpperChar(s[k])
  {
    seq(|s|, k requires 0 <= k < |s| => UpperChar(s[k]))
  }

  /** Case folding touches letters only: whitespace and every other symbol survive. */
  lemma FoldKeepsSymbols(s: string)
    ensures forall k :: 0 <= k < |s| && !('A' <= s[k] <= 'Z') && !('a' <= s[k] <= 'z') ==>
      ToLower(s)[k] == s[k] && ToUpper(s)[k] == s[k]
    ensures forall k :: 0 <= k < |s| ==>
      (IsSpace(ToLower(s)[k]) <==> IsSpace(s[k])) && (IsSpace(ToUpper(s)[k]) <==> IsSpace(s[k]))
  {
  }

  /** Folding is idempotent, and each fold undoes the other up to case. */
  lemma FoldIdempotent(s: string)
    ensures ToLower(ToLower(s)) == ToLower(s) && ToUpper(ToUpper(s)) == ToUpper(s)
    ensures ToLower(ToUpper(s)) == ToLower(s) && ToUpper(ToLower(s)) == ToUpper(s)
  {
  }

  /** `'\n'.join(lines)`. */
  function Join(lines: seq<string>, sep: string): string {
    if |lines| == 0 then ""
    else if |lines| == 1 then lines[0]
    else lines[0] + sep + Join(lines[1..], sep)
  }

  /** `''.join(parts)`. */
  function Concat(parts: seq<string>): string {
    if parts == [] then "" else parts[0] + Concat(parts[1..])
  }

  lemma {:induction false} ConcatAppend(a: seq<string>, b: seq<string>)
    ensures Concat(a + b) == Concat(a) + Concat(b)
  {
    if a != [] {
      assert (a + b)[0] == a[0];
      assert (a + b)[1..] == a[1..] + b;
      ConcatAppend(a[1..], b);
    } else {
      assert a + b == b;
    }
  }

  function DigitChar(d: nat): char
    requires d < 10
  {
    ('0' as int + d) as char
  }

  /** `str(n)` for a natural number: its decimal digits, most significant first. */
  function NatToString(n: nat): (r: string)
    ensures |r| > 0
    ensures forall k :: 0 <= k < |r| ==> '0' <= r[k] <= '9'
  {
    if n < 10 then [DigitChar(n)] else NatToString(n / 10) + [DigitChar(n % 10)]
  }

  /** The value of a string of decimal digits, the partner of NatToString. */
  function DigitsValue(s: string): nat
    requires forall k :: 0 <= k < |s| ==> '0' <= s[k] <= '9'
  {
    if s == [] then 0 else 10 * DigitsValue(s[..|s| - 1]) + (s[|s| - 1] as int - '0' as int)
  }

  lemma {:induction false} DigitsRoundTrip(n: nat)
    ensures DigitsValue(NatToString(n)) == n
  {
    if n >= 10 {
      var r := NatToString(n);
      assert r[..|r| - 1] == NatToString(n / 10);
      DigitsRoundTrip(n / 10);
    }
  }

  /** Distinct numbers print differently. */
  lemma NatToStringInjective(m: nat, n: nat)
    requires NatToString(m) == NatToString(n)
    ensures m == n
  {
    DigitsRoundTrip(m);
    DigitsRoundTrip(n);
  }

  /** The universal-newline translation of a file opened for reading in text mode without a
      `newline` argument: `\r\n` and a lone `\r` both become `\n`. */
  function Newlines(s: string): (r: string)
    ensures '\r' !in r
    ensures |r| <= |s|
    decreases |s|
  {
    if s == [] then ""
    else if s[0] == '\r' then "\n" + Newlines(if |s| > 1 && s[1] == '\n' then s[2..] else s[1..])
    else [s[0]] + Newlines(s[1..])
  }

  /** Text without a carriage return is read unchanged. */
  lemma {:induction false} NewlinesUnchanged(s: string)
    requires '\r' !in s
    ensures Newlines(s) == s
  {
    if s != [] {
      assert s[0] in s && s == [s[0]] + s[1..];
      NewlinesUnchanged(s[1..]);
    }
  }

  /** Python's iteration over a file read in text mode: the translated text cut into lines. */
  function ReadLines(s: string): seq<string> {
    SplitLines(Newlines(s))
  }

  /** A lone carriage return ends a line. */
  lemma CarriageReturnEndsLine()
    ensures ReadLines(">a\rb\n") == [">a\n", "b\n"]
  {
    var t := ">a\rb\n";
    assert Newlines(t[3..]) == "b\n" by {
      assert t[3..] == "b\n";
      assert Newlines("\n") == "\n";
    }
    assert Newlines(t[2..]) == "\nb\n";
    assert Newlines(t) == ">a\nb\n";
    var u := ">a\nb\n";
    assert u == ">a" + "\n" + "b\n";
    SplitLinesCons(">a", "b\n");
    assert "b\n" == "b" + "\n" + "";
    SplitLinesCons("b", "");
    assert SplitLines("") == [];
    assert ">a" + "\n" == ">a\n" && "b" + "\n" == "b\n";
    assert SplitLines(u) == [">a\n"] + ["b\n"];
  }

  /** Line iteration over translated text: each line keeps its terminating `\n`;
      the last line may lack one. */
  function SplitLines(t: string): (lines: seq<string>)
    decreases |t|
  {
    if t == [] then [] else
      var n := FirstLineLength(t);
      [t[..n]] + SplitLines(t[n..])
  }

  /** A lone line break is one (empty) line. */
  lemma SplitLineBreak()
    ensures SplitLines("\n") == ["\n"]
  {
    assert FirstLineLength("\n") == 1;
    assert "\n"[..1] == "\n" && "\n"[1..] == [];
  }

  function FirstLineLength(t: string): (n: nat)
    requires t != []
    ensures 1 <= n <= |t|
  {
    if t[0] == '\n' || |t| == 1 then 1 else 1 + FirstLineLength(t[1..])
  }

  /** The first line runs up to and including the first line break, or to the end. */
  lemma {:induction false} FirstLineSpec(t: string)
    requires t != []
    ensures forall k :: 0 <= k < FirstLineLength(t) - 1 ==> t[k] != '\n'
    ensures FirstLineLength(t) < |t| ==> t[FirstLineLength(t) - 1] == '\n'
  {
    if !(t[0] == '\n' || |t| == 1) {
      FirstLineSpec(t[1..]);
      forall k | 0 <= k < FirstLineLength(t) - 1 ensures t[k] != '\n' {
        if k > 0 {
          assert t[k] == t[1..][k - 1];
        }
      }
    }
  }

  lemma {:induction false} FirstLineOf(l: string, rest: string)
    requires forall k :: 0 <= k < |l| ==> l[k] != '\n'
    ensures FirstLineLength(l + "\n" + rest) == |l| + 1
  {
    if l != [] {
      assert (l + "\n" + rest)[1..] == l[1..] + "\n" + rest;
      FirstLineOf(l[1..], rest);
    }
  }

  /** A line terminated by `\n` is split off exactly. */
  lemma SplitLinesCons(l: string, rest: string)
    requires forall k :: 0 <= k < |l| ==> l[k] != '\n'
    ensures SplitLines(l + "\n" + rest) == [l + "\n"] + SplitLines(rest)
  {
    FirstLineOf(l, rest);
    var t := l + "\n" + rest;
    assert t[..|l| + 1] == l + "\n";
    assert t[|l| + 1..] == rest;
  }

  /** A text that ends with a line break splits where it ends. */
  lemma {:induction false} FirstLineAppend(a: string, b: string)
    requires a != [] && a[|a| - 1] == '\n'
    ensures FirstLineLength(a + b) == FirstLineLength(a)
  {
    if a[0] != '\n' && |a| > 1 {
      assert (a + b)[1..] == a[1..] + b;
      FirstLineAppend(a[1..], b);
    }
  }

  /** Cutting a concatenation inside its first part. */
  lemma CutAppend<T>(a: seq<T>, b: seq<T>, n: nat)
    requires n <= |a|
    ensures (a + b)[..n] == a[..n] && (a + b)[n..] == a[n..] + b
  {
  }

  lemma AppendAssoc<T>(x: seq<T>, y: seq<T>, z: seq<T>)
    ensures x + (y + z) == (x + y) + z
  {
  }

  /** Splitting two texts, the first ending with a line break, splits each on its own. */
  lemma {:induction false} SplitLinesAppend(a: string, b: string)
    requires a == [] || a[|a| - 1] == '\n'
    ensures SplitLines(a + b) == SplitLines(a) + SplitLines(b)
    decreases |a|
  {
    if a == [] {
      assert a + b == b;
    } else {
      var n := FirstLineLength(a);
      var rest := a[n..];
      FirstLineAppend(a, b);
      CutAppend(a, b, n);
      assert rest == [] || rest[|rest| - 1] == '\n';
      SplitLinesAppend(rest, b);
      AppendAssoc([a[..n]], SplitLines(rest), SplitLines(b));
    }
  }

  /** Each line followed by a line break. */
  function Terminated(lines: seq<string>): (r: seq<string>)
    ensures |r| == |lines| && forall k :: 0 <= k < |lines| ==> r[k] == lines[k] + "\n"
  {
    seq(|lines|, k requires 0 <= k < |lines| => lines[k] + "\n")
  }

  /** No character at which the text reader ends a line: neither `\n` nor `\r`. */
  predicate NoLineBreak(s: string) {
    forall k :: 0 <= k < |s| ==> s[k] != '\n' && s[k] != '\r'
  }

  lemma NoLineBreakChars(s: string)
    requires NoLineBreak(s)
    ensures '\n' !in s && '\r' !in s
  {
  }

  /** Joining pieces without carriage returns adds none. */
  lemma {:induction false} JoinNoCarriageReturn(lines: seq<string>, sep: string)
    requires forall k :: 0 <= k < |lines| ==> '\r' !in lines[k]
    requires '\r' !in sep
    ensures '\r' !in Join(lines, sep)
  {
    if |lines| > 1 {
      JoinNoCarriageReturn(lines[1..], sep);
    }
  }

  /** Lines joined by `'\n'`, with one more `'\n'` at the end, read back as the lines. */
  lemma SplitJoin(lines: seq<string>)
    requires lines != [] && forall k :: 0 <= k < |lines| ==> NoLineBreak(lines[k])
    ensures ReadLines(Join(lines, "\n") + "\n") == Terminated(lines)
  {
    forall k | 0 <= k < |lines| ensures '\r' !in lines[k] {
      NoLineBreakChars(lines[k]);
    }
    JoinNoCarriageReturn(lines, "\n");
    NewlinesUnchanged(Join(lines, "\n") + "\n");
    SplitJoinLines(lines);
  }

  lemma {:induction false} SplitJoinLines(lines: seq<string>)
    requires lines != [] && forall k :: 0 <= k < |lines| ==> NoLineBreak(lines[k])
    ensures SplitLines(Join(lines, "\n") + "\n") == Terminated(lines)
  {
    var l := lines[0];
    if |lines| == 1 {
      SplitLinesCons(l, "");
      assert l + "\n" + "" == l + "\n";
    } else {
      var rest := Join(lines[1..], "\n") + "\n";
      assert Join(lines, "\n") + "\n" == l + "\n" + rest;
      SplitLinesCons(l, rest);
      SplitJoinLines(lines[1..]);
      assert Terminated(lines) == [l + "\n"] + Terminated(lines[1..]);
    }
  }
}
