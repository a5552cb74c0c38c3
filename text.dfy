/**
 * The string operations the routes and pages rely on: JavaScript's `trim`,
 * `toUpperCase` / `toLowerCase` on ASCII letters, and the two `split`
 * patterns of the CSV reader (`/\r?\n/` for lines, `/,|;|\t/` for fields).
 */
module Text {

  /** The characters String.prototype.trim removes: ECMAScript WhiteSpace and LineTerminator. */
  const SPACES: set<char> := {'\t', '\n', '\U{B}', '\U{C}', '\r', ' ', '\U{A0}', '\U{1680}', '\U{2028}', '\U{2029}', '\U{202F}', '\U{205F}', '\U{3000}', '\U{FEFF}'}
  predicate IsJsWhitespace(c: char) {
    c in SPACES || ('\U{2000}' <= c <= '\U{200A}')
  }

  predicate IsUpper(c: char) { 'A' <= c <= 'Z' }
  predicate IsLower(c: char) { 'a' <= c <= 'z' }
  predicate IsDigit(c: char) { '0' <= c <= '9' }

  function UpperChar(c: char): char {
    if IsLower(c) then (c as int - 32) as char else c
  }

  function LowerChar(c: char): char {
    if IsUpper(c) then (c as int + 32) as char else c
  }

  function ToUpper(s: string): (r: string)
    ensures |r| == |s|
    ensures forall i :: 0 <= i < |s| ==> r[i] == UpperChar(s[i])
  {
    seq(|s|, i requires 0 <= i < |s| => UpperChar(s[i]))
  }

  function ToLower(s: string): (r: string)
    ensures |r| == |s|
    ensures forall i :: 0 <= i < |s| ==> r[i] == LowerChar(s[i])
  {
    seq(|s|, i requires 0 <= i < |s| => LowerChar(s[i]))
  }

  /** String.prototype.trim: white space is dropped from both ends. */
  function Trim(s: string): (r: string)
    ensures |r| <= |s|
    ensures r != [] ==> !IsJsWhitespace(r[0]) && !IsJsWhitespace(r[|r| - 1])
    decreases |s|
  {
    if s != [] && IsJsWhitespace(s[0]) then Trim(s[1..])
    else if s != [] && IsJsWhitespace(s[|s| - 1]) then Trim(s[..|s| - 1])
    else s
  }

  /**
   * What trim keeps is one slice of the input: everything before it and
   * everything after it is white space, and it neither starts nor ends with
   * white space, so no more and no less is removed.
   */
  lemma {:induction false} TrimSlice(s: string) returns (i: nat, j: nat)
    ensures i <= j <= |s| && Trim(s) == s[i..j]
    ensures forall k :: 0 <= k < i ==> IsJsWhitespace(s[k])
    ensures forall k :: j <= k < |s| ==> IsJsWhitespace(s[k])
    decreases |s|
  {
    if s != [] && IsJsWhitespace(s[0]) {
      var i', j' := TrimSlice(s[1..]);
      i, j := i' + 1, j' + 1;
      assert s[1..][i'..j'] == s[i..j];
      forall k | 1 <= k < i ensures IsJsWhitespace(s[k]) {
        assert s[k] == s[1..][k - 1];
      }
      forall k | j <= k < |s| ensures IsJsWhitespace(s[k]) {
        assert s[k] == s[1..][k - 1];
      }
    } else if s != [] && IsJsWhitespace(s[|s| - 1]) {
      i, j := TrimSlice(s[..|s| - 1]);
      assert s[..|s| - 1][i..j] == s[i..j];
      if |s| > 1 {
        assert s[..|s| - 1][0] == s[0];
      }
      forall k | j <= k < |s| - 1 ensures IsJsWhitespace(s[k]) {
        assert s[k] == s[..|s| - 1][k];
      }
    } else {
      i, j := 0, |s|;
    }
  }

  /** A string without white space at its ends is its own trim. */
  lemma TrimNoop(s: string)
    requires s == [] || (!IsJsWhitespace(s[0]) && !IsJsWhitespace(s[|s| - 1]))
    ensures Trim(s) == s
  {
  }

  /** A trimmed string neither starts nor ends with white space, so trimming it again changes nothing. */
  lemma TrimIdempotent(s: string)
    ensures Trim(Trim(s)) == Trim(s)
  {
    TrimNoop(Trim(s));
  }

  lemma LowerKeepsWhitespace(c: char)
    ensures IsJsWhitespace(LowerChar(c)) == IsJsWhitespace(c)
  {
  }

  /** Case mapping never creates nor removes white space, so it commutes with trim. */
  lemma {:induction false} LowerTrimCommute(s: string)
    ensures Trim(ToLower(s)) == ToLower(Trim(s))
    decreases |s|
  {
    if s != [] {
      var l := ToLower(s);
      LowerKeepsWhitespace(s[0]);
      LowerKeepsWhitespace(s[|s| - 1]);
      assert l[0] == LowerChar(s[0]) && l[|s| - 1] == LowerChar(s[|s| - 1]);
      if IsJsWhitespace(s[0]) {
        assert l[1..] == ToLower(s[1..]);
        LowerTrimCommute(s[1..]);
      } else if IsJsWhitespace(s[|s| - 1]) {
        assert l[..|s| - 1] == ToLower(s[..|s| - 1]);
        LowerTrimCommute(s[..|s| - 1]);
      }
    }
  }

  lemma LowerIdempotent(s: string)
    ensures ToLower(ToLower(s)) == ToLower(s)
  {
  }

  lemma UpperIdempotent(s: string)
    ensures ToUpper(ToUpper(s)) == ToUpper(s)
  {
  }

  /** The separators of `/,|;|\t/`. */
  predicate IsFieldSeparator(c: char) {
    c == ',' || c == ';' || c == '\t'
  }

  /** The separators of `s`, in order. */
  function SeparatorsOf(s: string): (seps: seq<char>)
    ensures |seps| <= |s|
    ensures forall c :: c in seps ==> IsFieldSeparator(c)
  {
    if s == [] then []
    else (if IsFieldSeparator(s[0]) then [s[0]] else []) + SeparatorsOf(s[1..])
  }

  /** `s` contains no separator. */
  predicate NoSeparator(s: string) {
    forall i :: 0 <= i < |s| ==> !IsFieldSeparator(s[i])
  }

  /** The pieces put back together, each separator between the two pieces it split. */
  function Interleave(parts: seq<string>, seps: seq<char>): (s: string)
    requires |parts| == |seps| + 1
    decreases |seps|
  {
    if seps == [] then parts[0]
    else parts[0] + [seps[0]] + Interleave(parts[1..], seps[1..])
  }

  /** `s.split(/,|;|\t/)`: the pieces between separators, empty ones included. */
  function SplitFields(s: string): (parts: seq<string>)
    ensures |parts| >= 1
    ensures NoSeparator(s) ==> parts == [s]
    decreases |s|
  {
    if s == [] then [""]
    else
      var rest := SplitFields(s[1..]);
      if IsFieldSeparator(s[0]) then [""] + rest
      else
        assert NoSeparator(s) ==> rest == [s[1..]] && [s[0]] + s[1..] == s;
        [[s[0]] + rest[0]] + rest[1..]
  }

  /** There is one piece more than there are separators, and no piece contains a separator. */
  lemma {:induction false} SplitFieldsShape(s: string)
    ensures |SplitFields(s)| == |SeparatorsOf(s)| + 1
    ensures forall k :: 0 <= k < |SplitFields(s)| ==> NoSeparator(SplitFields(s)[k])
    decreases |s|
  {
    if s != [] {
      var rest := SplitFields(s[1..]);
      SplitFieldsShape(s[1..]);
      if !IsFieldSeparator(s[0]) {
        var first := [s[0]] + rest[0];
        assert NoSeparator(first) by {
          forall i | 0 <= i < |first| ensures !IsFieldSeparator(first[i]) {
            if i > 0 {
              assert first[i] == rest[0][i - 1];
            }
          }
        }
        assert SplitFields(s) == [first] + rest[1..];
      }
    }
  }

  /** Splitting loses nothing: the pieces and the separators give back the input. */
  lemma {:induction false} SplitFieldsJoin(s: string)
    ensures |SplitFields(s)| == |SeparatorsOf(s)| + 1
    ensures Interleave(SplitFields(s), SeparatorsOf(s)) == s
    decreases |s|
  {
    SplitFieldsShape(s);
    if s != [] {
      var rest := SplitFields(s[1..]);
      var seps := SeparatorsOf(s[1..]);
      SplitFieldsShape(s[1..]);
      SplitFieldsJoin(s[1..]);
      if IsFieldSeparator(s[0]) {
        assert SplitFields(s) == [""] + rest && SeparatorsOf(s) == [s[0]] + seps;
        InterleaveEmptyHead(s[0], rest, seps);
      } else {
        assert SplitFields(s) == [[s[0]] + rest[0]] + rest[1..] && SeparatorsOf(s) == seps;
        InterleaveCharHead(s[0], rest, seps);
      }
      assert [s[0]] + s[1..] == s;
    }
  }

  lemma InterleaveEmptyHead(x: char, parts: seq<string>, seps: seq<char>)
    requires |parts| == |seps| + 1
    ensures Interleave([""] + parts, [x] + seps) == [x] + Interleave(parts, seps)
  {
    assert ([""] + parts)[1..] == parts && ([x] + seps)[1..] == seps;
  }

  lemma InterleaveCharHead(x: char, parts: seq<string>, seps: seq<char>)
    requires |parts| == |seps| + 1
    ensures Interleave([[x] + parts[0]] + parts[1..], seps) == [x] + Interleave(parts, seps)
  {
    var ps := [[x] + parts[0]] + parts[1..];
    if seps != [] {
      assert ps[0] == [x] + parts[0] && ps[1..] == parts[1..];
      var tail := Interleave(parts[1..], seps[1..]);
      assert Interleave(ps, seps) == ([x] + parts[0]) + [seps[0]] + tail;
      assert Interleave(parts, seps) == parts[0] + [seps[0]] + tail;
    }
  }

  /** A separator ends the first piece: what comes before it is the first field, what follows is split on its own. */
  lemma {:induction false} SplitFieldsCons(c: string, sep: char, t: string)
    requires NoSeparator(c) && IsFieldSeparator(sep)
    ensures SplitFields(c + [sep] + t) == [c] + SplitFields(t)
    decreases |c|
  {
    var s := c + [sep] + t;
    if c == [] {
      assert s[1..] == t;
    } else {
      assert s[0] == c[0] && s[1..] == c[1..] + [sep] + t;
      SplitFieldsCons(c[1..], sep, t);
      assert [c[0]] + c[1..] == c;
    }
  }

  /** `s.split(/\r?\n/)`: a line ends at "\n" or "\r\n"; no line holds a "\n". */
  function SplitLines(s: string): (lines: seq<string>)
    ensures |lines| >= 1
    ensures forall k :: 0 <= k < |lines| ==> '\n' !in lines[k]
  {
    SplitLinesFrom(s, "")
  }

  /** The lines of `s`, the first of them continuing the partial line `cur`. */
  function SplitLinesFrom(s: string, cur: string): (lines: seq<string>)
    ensures |lines| >= 1
    ensures '\n' !in cur ==> forall k :: 0 <= k < |lines| ==> '\n' !in lines[k]
    decreases |s|
  {
    if s == [] then [cur]
    else if s[0] == '\n' then [cur] + SplitLinesFrom(s[1..], "")
    else if s[0] == '\r' && |s| >= 2 && s[1] == '\n' then [cur] + SplitLinesFrom(s[2..], "")
    else SplitLinesFrom(s[1..], cur + [s[0]])
  }

  /** Text without a "\n" continues the current line to its end. */
  lemma {:induction false} SplitLinesFromPlain(l: string, cur: string)
    requires '\n' !in l
    ensures SplitLinesFrom(l, cur) == [cur + l]
    decreases |l|
  {
    if l == [] {
      assert cur + l == cur;
    } else {
      assert l[0] in l;
      if |l| >= 2 {
        assert l[1] in l;
      }
      SplitLinesFromPlain(l[1..], cur + [l[0]]);
      assert cur + [l[0]] + l[1..] == cur + l;
    }
  }

  /** Text without a "\n" is a single line, kept whole. */
  lemma SplitLinesPlain(l: string)
    requires '\n' !in l
    ensures SplitLines(l) == [l]
  {
    SplitLinesFromPlain(l, "");
    assert "" + l == l;
  }

  lemma {:induction false} SplitLinesFromLF(l: string, rest: string, cur: string)
    requires '\n' !in l && (l == [] || l[|l| - 1] != '\r')
    ensures SplitLinesFrom(l + "\n" + rest, cur) == [cur + l] + SplitLines(rest)
    decreases |l|
  {
    var s := l + "\n" + rest;
    if l == [] {
      assert s[0] == '\n' && s[1..] == rest && cur + l == cur;
    } else {
      assert s[0] == l[0] && l[0] in l && s[1..] == l[1..] + "\n" + rest;
      if |l| >= 2 {
        assert s[1] == l[1] && l[1] in l;
      } else {
        assert s[1] == '\n' && l[0] == l[|l| - 1];
      }
      assert l[1..] == [] || l[1..][|l[1..]| - 1] == l[|l| - 1];
      SplitLinesFromLF(l[1..], rest, cur + [l[0]]);
      assert cur + [l[0]] + l[1..] == cur + l;
    }
  }

  lemma {:induction false} SplitLinesFromCRLF(l: string, rest: string, cur: string)
    requires '\n' !in l
    ensures SplitLinesFrom(l + "\r\n" + rest, cur) == [cur + l] + SplitLines(rest)
    decreases |l|
  {
    var s := l + "\r\n" + rest;
    if l == [] {
      assert s[0] == '\r' && s[1] == '\n' && s[2..] == rest && cur + l == cur;
    } else {
      assert s[0] == l[0] && l[0] in l && s[1..] == l[1..] + "\r\n" + rest;
      if |l| >= 2 {
        assert s[1] == l[1] && l[1] in l;
      } else {
        assert s[1] == '\r';
      }
      SplitLinesFromCRLF(l[1..], rest, cur + [l[0]]);
      assert cur + [l[0]] + l[1..] == cur + l;
    }
  }

  /** A "\n" ends a line: the text before it (not ending in "\r") is the first line, the rest is split on its own. */
  lemma SplitLinesLF(l: string, rest: string)
    requires '\n' !in l && (l == [] || l[|l| - 1] != '\r')
    ensures SplitLines(l + "\n" + rest) == [l] + SplitLines(rest)
  {
    SplitLinesFromLF(l, rest, "");
    assert "" + l == l;
  }

  /** A "\r\n" ends a line too, and neither of its two characters is kept. */
  lemma SplitLinesCRLF(l: string, rest: string)
    requires '\n' !in l
    ensures SplitLines(l + "\r\n" + rest) == [l] + SplitLines(rest)
  {
    SplitLinesFromCRLF(l, rest, "");
    assert "" + l == l;
  }

  /** `parts.map((p) => p.trim())`. */
  function TrimEach(parts: seq<string>): (r: seq<string>)
    ensures |r| == |parts|
    ensures forall i :: 0 <= i < |parts| ==> r[i] == Trim(parts[i])
  {
    seq(|parts|, i requires 0 <= i < |parts| => Trim(parts[i]))
  }
}
