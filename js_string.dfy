/**
 * The string operations of the JavaScript runtime that the components use:
 * `split` on a one-character separator, `join`, `trim`, `split(/\s+/)` and
 * `replace` with a string pattern. Strings are sequences of characters.
 */
module JsString {

  /**
   * The characters ECMAScript calls WhiteSpace or LineTerminator: exactly
   * the ones `trim()` removes and the regular-expression class `\s` matches.
   */
  predicate IsJsSpace(c: char) {
    || c == '\t' || c == '\n' || c == '\U{000B}' || c == '\U{000C}' || c == '\r' || c == ' '
    || c == '\U{00A0}' || c == '\U{1680}' || ('\U{2000}' <= c <= '\U{200A}')
    || c == '\U{2028}' || c == '\U{2029}' || c == '\U{202F}' || c == '\U{205F}'
    || c == '\U{3000}' || c == '\U{FEFF}'
  }

  /** Number of occurrences of `c` in `s`. */
  function Occurrences(s: string, c: char): nat {
    if s == [] then 0 else (if s[0] == c then 1 else 0) + Occurrences(s[1..], c)
  }

  lemma {:induction false} OccurrencesAppend(a: string, b: string, c: char)
    ensures Occurrences(a + b, c) == Occurrences(a, c) + Occurrences(b, c)
  {
    if a == [] {
      assert a + b == b;
    } else {
      assert (a + b)[0] == a[0] && (a + b)[1..] == a[1..] + b;
      OccurrencesAppend(a[1..], b, c);
    }
  }

  /** A prefix never holds more occurrences of a character than the whole string. */
  lemma OccurrencesPrefix(s: string, n: nat, c: char)
    requires n <= |s|
    ensures Occurrences(s[..n], c) <= Occurrences(s, c)
  {
    assert s == s[..n] + s[n..];
    OccurrencesAppend(s[..n], s[n..], c);
  }

  // ---------------------------------------------------------------------
  // s.split(sep) and parts.join(sep)

  /** `s.split(sep)` for a one-character separator: the pieces between separators. */
  function Split(s: string, sep: char): (r: seq<string>)
    ensures |r| >= 1
    ensures forall i :: 0 <= i < |r| ==> sep !in r[i]
  {
    if s == [] then [""]
    else
      var rest := Split(s[1..], sep);
      if s[0] == sep then [""] + rest else [[s[0]] + rest[0]] + rest[1..]
  }

  /** `parts.join(sep)`: the pieces with `sep` between neighbours; `[]` joins to `""`. */
  function Join(parts: seq<string>, sep: string): string {
    if |parts| == 0 then ""
    else if |parts| == 1 then parts[0]
    else parts[0] + sep + Join(parts[1..], sep)
  }

  /** Joining the pieces of a split gives back the original string. */
  lemma {:induction false} JoinSplit(s: string, sep: char)
    ensures Join(Split(s, sep), [sep]) == s
  {
    if s != [] {
      var rest := Split(s[1..], sep);
      JoinSplit(s[1..], sep);
      if s[0] != sep && |rest| > 1 {
        assert Join(rest, [sep]) == rest[0] + [sep] + Join(rest[1..], [sep]);
        assert ([[s[0]] + rest[0]] + rest[1..])[1..] == rest[1..];
      }
    }
  }

  /** Splitting after a separator-free head only extends the first piece. */
  lemma {:induction false} SplitPrepend(a: string, t: string, sep: char)
    requires sep !in a
    ensures Split(a + t, sep) == [a + Split(t, sep)[0]] + Split(t, sep)[1..]
  {
    var x := Split(t, sep);
    if a == [] {
      assert a + t == t && a + x[0] == x[0];
      assert x == [x[0]] + x[1..];
    } else {
      assert (a + t)[0] == a[0] && (a + t)[1..] == a[1..] + t;
      SplitPrepend(a[1..], t, sep);
      assert [a[0]] + (a[1..] + x[0]) == a + x[0];
    }
  }

  /** Text without the separator extends the last piece of a split. */
  lemma SplitAppendText(p: string, a: string, sep: char, init: seq<string>, last: string)
    requires sep !in a && Split(p, sep) == init + [last]
    ensures Split(p + a, sep) == init + [last + a]
  {
    JoinSplit(p, sep);
    JoinAppend(init, last, a, [sep]);
    var pieces := init + [last + a];
    assert p + a == Join(pieces, [sep]);
    forall i | 0 <= i < |pieces| ensures sep !in pieces[i] {
      assert i < |init| ==> pieces[i] == Split(p, sep)[i];
      assert i == |init| ==> last == Split(p, sep)[i];
    }
    SplitJoin(pieces, sep);
  }

  /** Appending to a join appends to its last piece. */
  lemma {:induction false} JoinAppend(xs: seq<string>, y: string, a: string, sep: string)
    ensures Join(xs + [y], sep) + a == Join(xs + [y + a], sep)
  {
    if xs != [] {
      JoinAppend(xs[1..], y, a, sep);
      assert (xs + [y])[1..] == xs[1..] + [y];
      assert (xs + [y + a])[1..] == xs[1..] + [y + a];
    }
  }

  /** A separator at the end of the string adds an empty last piece. */
  lemma {:induction false} SplitAppendSep(p: string, sep: char, pieces: seq<string>)
    requires Split(p, sep) == pieces
    ensures Split(p + [sep], sep) == pieces + [""]
    decreases |p|
  {
    if p == [] {
      assert p + [sep] == [sep] && [sep][1..] == [];
    } else {
      var q := p[1..];
      var sq := Split(q, sep);
      assert (p + [sep])[0] == p[0] && (p + [sep])[1..] == q + [sep];
      SplitAppendSep(q, sep, sq);
      if p[0] != sep {
        assert (sq + [""])[0] == sq[0] && (sq + [""])[1..] == sq[1..] + [""];
      }
    }
  }

  /** Each line followed by the separator, in order: a template of newline-ended lines. */
  function Terminated(lines: seq<string>, sep: char): string {
    if lines == [] then "" else Terminated(lines[..|lines| - 1], sep) + lines[|lines| - 1] + [sep]
  }

  /** Terminating two runs of lines one after the other is terminating their concatenation. */
  lemma {:induction false} TerminatedAppend(a: seq<string>, b: seq<string>, sep: char)
    ensures Terminated(a + b, sep) == Terminated(a, sep) + Terminated(b, sep)
    decreases |b|
  {
    if b != [] {
      var init := b[..|b| - 1];
      assert (a + b)[..|a + b| - 1] == a + init;
      TerminatedAppend(a, init, sep);
    } else {
      assert a + b == a;
    }
  }

  lemma TerminatedTwo(x: string, y: string, sep: char)
    ensures Terminated([x, y], sep) == x + [sep] + y + [sep]
  {
    assert [x, y][..1] == [x] && [x][..0] == [];
    assert Terminated([x], sep) == "" + x + [sep];
    assert Terminated([x, y], sep) == Terminated([x], sep) + y + [sep];
  }

  /** Separator-free lines, each ended by the separator, split back into the lines and an empty rest. */
  lemma {:induction false} SplitTerminated(lines: seq<string>, sep: char)
    requires forall i :: 0 <= i < |lines| ==> sep !in lines[i]
    ensures Split(Terminated(lines, sep), sep) == lines + [""]
  {
    if lines != [] {
      var init, last := lines[..|lines| - 1], lines[|lines| - 1];
      SplitTerminated(init, sep);
      SplitAppendText(Terminated(init, sep), last, sep, init, "");
      SplitAppendSep(Terminated(init, sep) + last, sep, init + ["" + last]);
      assert "" + last == last && init + [last] == lines;
    }
  }

  /** A character absent from the string is absent from every piece of its split. */
  lemma {:induction false} SplitAvoids(s: string, sep: char, c: char)
    requires c !in s
    ensures forall i :: 0 <= i < |Split(s, sep)| ==> c !in Split(s, sep)[i]
  {
    if s != [] {
      assert c !in s[1..];
      SplitAvoids(s[1..], sep, c);
    }
  }

  /** Splitting a join of separator-free pieces gives back the pieces. */
  lemma {:induction false} SplitJoin(parts: seq<string>, sep: char)
    requires |parts| >= 1
    requires forall i :: 0 <= i < |parts| ==> sep !in parts[i]
    ensures Split(Join(parts, [sep]), sep) == parts
  {
    if |parts| == 1 {
      SplitPrepend(parts[0], "", sep);
      assert parts[0] + "" == parts[0];
    } else {
      var tail := Join(parts[1..], [sep]);
      SplitJoin(parts[1..], sep);
      assert parts[0] + [sep] + tail == parts[0] + ([sep] + tail);
      SplitPrepend(parts[0], [sep] + tail, sep);
      assert ([sep] + tail)[1..] == tail;
      assert parts[0] + "" == parts[0];
      assert parts == [parts[0]] + parts[1..];
    }
  }

  /** A split yields one piece more than there are separators. */
  lemma {:induction false} SplitLength(s: string, sep: char)
    ensures |Split(s, sep)| == Occurrences(s, sep) + 1
  {
    if s != [] {
      SplitLength(s[1..], sep);
    }
  }

  /** A join of separator-free pieces holds one separator fewer than pieces. */
  lemma {:induction false} JoinOccurrences(parts: seq<string>, sep: char)
    requires |parts| >= 1
    requires forall i :: 0 <= i < |parts| ==> sep !in parts[i]
    ensures Occurrences(Join(parts, [sep]), sep) == |parts| - 1
  {
    NoOccurrences(parts[0], sep);
    if |parts| > 1 {
      JoinOccurrences(parts[1..], sep);
      OccurrencesAppend(parts[0] + [sep], Join(parts[1..], [sep]), sep);
      OccurrencesAppend(parts[0], [sep], sep);
    }
  }

  lemma {:induction false} NoOccurrences(s: string, c: char)
    requires c !in s
    ensures Occurrences(s, c) == 0
  {
    if s != [] {
      NoOccurrences(s[1..], c);
    }
  }

  // ---------------------------------------------------------------------
  // s.trim()

  /** `s.trimStart()`: drops every leading whitespace character. */
  function TrimStart(s: string): (r: string)
    ensures |r| <= |s| && r == s[|s| - |r|..]
    ensures forall i :: 0 <= i < |s| - |r| ==> IsJsSpace(s[i])
    ensures r != [] ==> !IsJsSpace(r[0])
  {
    if s != [] && IsJsSpace(s[0]) then TrimStart(s[1..]) else s
  }

  /** `s.trimEnd()`: drops every trailing whitespace character. */
  function TrimEnd(s: string): (r: string)
    ensures |r| <= |s| && r == s[..|r|]
    ensures forall i :: |r| <= i < |s| ==> IsJsSpace(s[i])
    ensures r != [] ==> !IsJsSpace(r[|r| - 1])
  {
    if s != [] && IsJsSpace(s[|s| - 1]) then TrimEnd(s[..|s| - 1]) else s
  }

  /** `s.trim()`. */
  function Trim(s: string): string {
    TrimEnd(TrimStart(s))
  }

  /** `s.trim()` is empty exactly when every character of `s` is whitespace. */
  lemma TrimEmptyIff(s: string)
    ensures Trim(s) == "" <==> forall i :: 0 <= i < |s| ==> IsJsSpace(s[i])
  {
    var t := TrimStart(s);
    if Trim(s) == "" {
      assert t == [];
    } else {
      assert !IsJsSpace(t[0]);
      assert t[0] == s[|s| - |t|];
    }
  }

  // ---------------------------------------------------------------------
  // s.split(/\s+/)

  /**
   * `s.split(/\s+/)`: the pieces between maximal runs of whitespace. A leading
   * or trailing run yields an empty first or last piece.
   */
  function SplitWs(s: string): (r: seq<string>)
    ensures |r| >= 1
    ensures forall i, k :: 0 <= i < |r| && 0 <= k < |r[i]| ==> !IsJsSpace(r[i][k])
    ensures s != [] && !IsJsSpace(s[0]) ==> r[0] != ""
    ensures forall i :: 0 < i < |r| - 1 ==> r[i] != ""
    decreases |s|
  {
    if s == [] then [""]
    else if IsJsSpace(s[0]) then
      var t := TrimStart(s);
      assert t != [] ==> t[0] == s[|s| - |t|];
      [""] + SplitWs(t)
    else
      var rest := SplitWs(s[1..]);
      [[s[0]] + rest[0]] + rest[1..]
  }

  /** The number of tokens `s.split(/\s+/).length` counts as words. */
  function TokenCount(s: string): (k: nat)
    ensures k >= 1
  {
    |SplitWs(s)|
  }

  /** Position `i` starts a maximal run of whitespace. */
  predicate RunStartAt(s: string, i: nat)
    requires i < |s|
  {
    IsJsSpace(s[i]) && (i == 0 || !IsJsSpace(s[i - 1]))
  }

  /** Number of maximal whitespace runs that start among the first `n` characters. */
  function RunStarts(s: string, n: nat): nat
    requires n <= |s|
  {
    if n == 0 then 0 else RunStarts(s, n - 1) + (if RunStartAt(s, n - 1) then 1 else 0)
  }

  /** Number of maximal whitespace runs in `s`. */
  function RunCount(s: string): nat {
    RunStarts(s, |s|)
  }

  function Bit(b: bool): nat {
    if b then 1 else 0
  }

  lemma {:induction false} RunStartsShift(c: char, t: string, n: nat)
    requires 1 <= n <= |t|
    ensures RunStarts([c] + t, n + 1) + Bit(IsJsSpace(t[0]))
         == RunStarts(t, n) + Bit(RunStartAt([c] + t, 0)) + Bit(RunStartAt([c] + t, 1))
  {
    var ct := [c] + t;
    if n == 1 {
      assert RunStarts(ct, 1) == Bit(RunStartAt(ct, 0));
      assert RunStarts(ct, 2) == RunStarts(ct, 1) + Bit(RunStartAt(ct, 1));
      assert RunStarts(t, 1) == Bit(RunStartAt(t, 0));
    } else {
      RunStartsShift(c, t, n - 1);
      assert ct[n] == t[n - 1] && ct[n - 1] == t[n - 2];
      assert RunStartAt(ct, n) == RunStartAt(t, n - 1);
    }
  }

  /** How a leading character changes the run count. */
  lemma RunCountCons(c: char, t: string)
    ensures !IsJsSpace(c) ==> RunCount([c] + t) == RunCount(t)
    ensures IsJsSpace(c) && (t == [] || !IsJsSpace(t[0])) ==> RunCount([c] + t) == 1 + RunCount(t)
    ensures IsJsSpace(c) && t != [] && IsJsSpace(t[0]) ==> RunCount([c] + t) == RunCount(t)
  {
    if t == [] {
      assert [c] + t == [c];
      assert RunStarts([c], 1) == RunStarts([c], 0) + Bit(RunStartAt([c], 0));
    } else {
      RunStartsShift(c, t, |t|);
    }
  }

  lemma {:induction false} RunCountSpaces(s: string)
    requires s != [] && IsJsSpace(s[0])
    ensures RunCount(s) == 1 + RunCount(TrimStart(s))
    decreases |s|
  {
    assert s == [s[0]] + s[1..];
    RunCountCons(s[0], s[1..]);
    if |s| > 1 && IsJsSpace(s[1]) {
      RunCountSpaces(s[1..]);
    }
  }

  /** `s.split(/\s+/).length` is one more than the number of maximal whitespace runs. */
  lemma {:induction false} TokenCountRuns(s: string)
    ensures TokenCount(s) == 1 + RunCount(s)
    decreases |s|
  {
    if s != [] {
      if IsJsSpace(s[0]) {
        var t := TrimStart(s);
        assert t != [] ==> t[0] == s[|s| - |t|];
        TokenCountRuns(t);
        RunCountSpaces(s);
      } else {
        TokenCountRuns(s[1..]);
        assert s == [s[0]] + s[1..];
        RunCountCons(s[0], s[1..]);
      }
    }
  }

  predicate IsWord(w: string) {
    w != [] && forall k :: 0 <= k < |w| ==> !IsJsSpace(w[k])
  }

  /** Splitting after a word only extends the first piece. */
  lemma {:induction false} SplitWsPrepend(w: string, t: string)
    requires forall k :: 0 <= k < |w| ==> !IsJsSpace(w[k])
    ensures SplitWs(w + t) == [w + SplitWs(t)[0]] + SplitWs(t)[1..]
  {
    var x := SplitWs(t);
    if w == [] {
      assert w + t == t && w + x[0] == x[0];
      assert x == [x[0]] + x[1..];
    } else {
      assert (w + t)[0] == w[0] && (w + t)[1..] == w[1..] + t;
      SplitWsPrepend(w[1..], t);
      assert [w[0]] + (w[1..] + x[0]) == w + x[0];
    }
  }

  /** A single space before a word-initial string contributes one empty piece. */
  lemma SplitWsSpace(t: string)
    requires t != [] && !IsJsSpace(t[0])
    ensures SplitWs(" " + t) == [""] + SplitWs(t)
  {
    assert TrimStart(" " + t) == TrimStart(t) == t;
  }

  /** A word followed by one space splits off as its own piece. */
  lemma SplitWsWordSpace(w: string, t: string)
    requires IsWord(w)
    requires t != [] && !IsJsSpace(t[0])
    ensures SplitWs(w + " " + t) == [w] + SplitWs(t)
  {
    SplitWsSpace(t);
    assert w + " " + t == w + (" " + t);
    SplitWsPrepend(w, " " + t);
    assert w + "" == w;
  }

  /** Words joined by single spaces split back into exactly those words. */
  lemma {:induction false} SplitWsWords(words: seq<string>)
    requires |words| >= 1
    requires forall i :: 0 <= i < |words| ==> IsWord(words[i])
    ensures SplitWs(Join(words, " ")) == words
  {
    if |words| == 1 {
      SplitWsPrepend(words[0], "");
      assert words[0] + "" == words[0];
    } else {
      var tail := Join(words[1..], " ");
      SplitWsWords(words[1..]);
      JoinStartsWithWord(words[1..]);
      SplitWsWordSpace(words[0], tail);
      assert words == [words[0]] + words[1..];
    }
  }

  /**
   * A trailing newline (which a text file usually ends with) adds one empty
   * piece, so it counts as one extra word.
   */
  lemma {:induction false} SplitWsWordsNewline(words: seq<string>)
    requires |words| >= 1
    requires forall i :: 0 <= i < |words| ==> IsWord(words[i])
    ensures SplitWs(Join(words, " ") + "\n") == words + [""]
  {
    if |words| == 1 {
      SplitWsWordNewline(words[0]);
    } else {
      var tail := Join(words[1..], " ");
      SplitWsWordsNewline(words[1..]);
      JoinStartsWithWord(words[1..]);
      JoinThenNewline(words);
      SplitWsWordSpace(words[0], tail + "\n");
      assert words + [""] == [words[0]] + (words[1..] + [""]);
    }
  }

  lemma SplitWsWordNewline(w: string)
    requires IsWord(w)
    ensures SplitWs(w + "\n") == [w, ""]
  {
    var nl := SplitWs("\n");
    assert nl == [""] + SplitWs(TrimStart("\n"));
    SplitWsPrepend(w, "\n");
    assert w + nl[0] == w;
  }

  lemma JoinThenNewline(words: seq<string>)
    requires |words| >= 2
    ensures Join(words, " ") + "\n" == words[0] + " " + (Join(words[1..], " ") + "\n")
  {
  }

  lemma JoinStartsWithWord(words: seq<string>)
    requires |words| >= 1 && IsWord(words[0])
    ensures Join(words, " ") != [] && Join(words, " ")[0] == words[0][0]
  {
  }

  // ---------------------------------------------------------------------
  // s.replace(from, to) with a string pattern

  /** `s.indexOf(c)` for a character that occurs: the position of its first occurrence. */
  function IndexOf(s: string, c: char): (i: nat)
    requires c in s
    ensures i < |s| && s[i] == c
    ensures forall k :: 0 <= k < i ==> s[k] != c
  {
    if s[0] == c then 0 else 1 + IndexOf(s[1..], c)
  }

  /** `s.replace(from, to)` for one-character strings: only the first `from` is replaced. */
  function ReplaceFirst(s: string, from: char, to: char): (r: string)
    ensures |r| == |s|
    ensures from !in s ==> r == s
    ensures from in s ==> r[IndexOf(s, from)] == to
    ensures from in s ==> forall k :: 0 <= k < |s| && k != IndexOf(s, from) ==> r[k] == s[k]
  {
    if s == [] then []
    else if s[0] == from then [to] + s[1..]
    else [s[0]] + ReplaceFirst(s[1..], from, to)
  }
}
