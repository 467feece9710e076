/// The pieces of Python's text handling that todo.py relies on:
/// `str.strip()`, `str.split(',')` and reading a text file line by line
/// with universal newlines (`open(...).readlines()`).
module TextOps {

  /// Python's `str.isspace` for one character: the characters that
  /// `str.strip()` with no argument removes.
  predicate IsSpace(c: char)
  {
    ('\t' <= c <= '\r') || ('\U{1c}' <= c <= '\U{1f}') || c == ' ' ||
    c == '\U{85}' || c == '\U{a0}' || c == '\U{1680}' ||
    ('\U{2000}' <= c <= '\U{200a}') || c == '\U{2028}' || c == '\U{2029}' ||
    c == '\U{202f}' || c == '\U{205f}' || c == '\U{3000}'
  }

  /// A string that `strip()` leaves alone: empty, or neither end is whitespace.
  predicate Unpadded(s: string)
  {
    s == [] || (!IsSpace(s[0]) && !IsSpace(s[|s| - 1]))
  }

  /// `s.lstrip()`: the longest suffix of `s` that does not start with whitespace.
  function StripLeading(s: string): (r: string)
    ensures |r| <= |s| && r == s[|s| - |r|..]
    ensures r == [] || !IsSpace(r[0])
    ensures forall k :: 0 <= k < |s| - |r| ==> IsSpace(s[k])
    decreases |s|
  {
    if s != [] && IsSpace(s[0]) then StripLeading(s[1..]) else s
  }

  /// `s.rstrip()`: the longest prefix of `s` that does not end with whitespace.
  function StripTrailing(s: string): (r: string)
    ensures |r| <= |s| && r == s[..|r|]
    ensures r == [] || !IsSpace(r[|r| - 1])
    ensures forall k :: |r| <= k < |s| ==> IsSpace(s[k])
    decreases |s|
  {
    if s != [] && IsSpace(s[|s| - 1]) then StripTrailing(s[..|s| - 1]) else s
  }

  /// `s.strip()`.
  function Strip(s: string): (r: string)
    ensures r == [] <==> forall k :: 0 <= k < |s| ==> IsSpace(s[k])
    ensures Unpadded(r)
    ensures r == s <==> Unpadded(s)
  {
    var lead := StripLeading(s);
    var r := StripTrailing(lead);
    assert r != [] ==> r[0] == lead[0];
    assert Unpadded(s) && s != [] ==> lead == s;
    r
  }

  /// Some character of `s` is not whitespace.
  predicate HasText(s: string)
  {
    exists i :: 0 <= i < |s| && !IsSpace(s[i])
  }

  /// Stripping leaves something exactly when there is a character that is
  /// not whitespace.
  lemma StripBlank(s: string)
    ensures Strip(s) != [] <==> HasText(s)
  {
  }

  /// Strip keeps one contiguous slice of its argument and drops only
  /// whitespace around it.
  lemma StripSlice(s: string) returns (i: nat, j: nat)
    ensures i <= j <= |s| && Strip(s) == s[i..j]
    ensures forall k :: 0 <= k < i ==> IsSpace(s[k])
    ensures forall k :: j <= k < |s| ==> IsSpace(s[k])
  {
    var lead := StripLeading(s);
    i := |s| - |lead|;
    var r := StripTrailing(lead);
    j := i + |r|;
    assert lead == s[i..];
    assert r == lead[..|r|];
    forall k | j <= k < |s|
      ensures IsSpace(s[k])
    {
      assert s[k] == lead[k - i];
    }
  }

  /// A line without surrounding whitespace keeps its text when a trailing
  /// whitespace character (the newline) is stripped off.
  lemma StripTerminated(line: string, c: char)
    requires line != [] && Unpadded(line) && IsSpace(c)
    ensures Strip(line + [c]) == line
  {
  }

  /// Stripping a line plus one trailing whitespace character never keeps
  /// more than the line: if it keeps at least as much, it keeps the line.
  lemma StripTerminatedLength(line: string, c: char)
    requires IsSpace(c) && |Strip(line + [c])| >= |line|
    ensures Strip(line + [c]) == line
  {
  }

  /// The index of the first `c` in `s`, or `|s|` when there is none.
  function IndexOf(s: string, c: char): (k: nat)
    ensures k <= |s|
    ensures forall i :: 0 <= i < k ==> s[i] != c
    ensures k < |s| ==> s[k] == c
  {
    if s == [] || s[0] == c then 0 else 1 + IndexOf(s[1..], c)
  }

  lemma IndexOfAbsent(s: string, c: char)
    requires c !in s
    ensures IndexOf(s, c) == |s|
  {
  }

  /// `sep.join(fields)`.
  function Join(fields: seq<string>, sep: char): (r: string)
  {
    if fields == [] then ""
    else if |fields| == 1 then fields[0]
    else fields[0] + [sep] + Join(fields[1..], sep)
  }

  /// `s.split(sep)` for a one-character separator: every field is free of
  /// `sep`, there is at least one field, and joining them back gives `s`.
  function Split(s: string, sep: char): (r: seq<string>)
    ensures |r| >= 1
    ensures forall i :: 0 <= i < |r| ==> sep !in r[i]
    ensures Join(r, sep) == s
    decreases |s|
  {
    var k := IndexOf(s, sep);
    if k == |s| then
      [s]
    else
      var head := s[..k];
      var tail := Split(s[k + 1..], sep);
      assert forall i :: 0 <= i < |head| ==> head[i] != sep;
      assert ([head] + tail)[1..] == tail;
      assert head + [sep] + s[k + 1..] == s;
      [head] + tail
  }

  /// Split is the only way to cut a string into separator-free fields:
  /// splitting a join gives the fields back.
  lemma {:induction false} SplitJoin(fields: seq<string>, sep: char)
    requires |fields| >= 1
    requires forall i :: 0 <= i < |fields| ==> sep !in fields[i]
    ensures Split(Join(fields, sep), sep) == fields
    decreases |fields|
  {
    var s := Join(fields, sep);
    if |fields| == 1 {
      IndexOfAbsent(fields[0], sep);
    } else {
      var head := fields[0];
      var rest := Join(fields[1..], sep);
      assert s == head + [sep] + rest;
      IndexOfAbsent(head, sep);
      assert s[|head|] == sep;
      assert forall i :: 0 <= i < |head| ==> s[i] == head[i];
      assert IndexOf(s, sep) == |head|;
      assert s[..|head|] == head;
      assert s[|head| + 1..] == rest;
      SplitJoin(fields[1..], sep);
      assert [head] + fields[1..] == fields;
    }
  }

  /// Joining three or more fields writes the first three, then the rest.
  lemma JoinFirstThree(fields: seq<string>, sep: char)
    requires |fields| >= 3
    ensures Join(fields, sep) ==
      fields[0] + [sep] + fields[1] + [sep] + fields[2] +
      (if |fields| == 3 then "" else [sep] + Join(fields[3..], sep))
  {
    var a, b, c := fields[0], fields[1], fields[2];
    assert fields[1..][1..] == fields[2..];
    assert Join(fields, sep) == a + [sep] + Join(fields[1..], sep);
    assert Join(fields[1..], sep) == b + [sep] + Join(fields[2..], sep);
    if |fields| == 3 {
      assert Join(fields[2..], sep) == c;
    } else {
      assert fields[2..][1..] == fields[3..];
      assert Join(fields[2..], sep) == c + [sep] + Join(fields[3..], sep);
    }
  }

  /// Concatenation of a sequence of strings.
  function Concat(parts: seq<string>): string
  {
    if parts == [] then "" else parts[0] + Concat(parts[1..])
  }

  /// `readlines()` on text whose line endings are already `\n`: the text
  /// cut after each `\n`; each line keeps its terminator, only a last line
  /// may lack one, and no line holds a `\n` anywhere else.
  function ReadLines(t: string): (lines: seq<string>)
    ensures Concat(lines) == t
    ensures forall i :: 0 <= i < |lines| ==>
      lines[i] != [] && '\n' !in lines[i][..|lines[i]| - 1]
    ensures forall i :: 0 <= i < |lines| - 1 ==> lines[i][|lines[i]| - 1] == '\n'
    decreases |t|
  {
    if t == [] then []
    else
      var k := IndexOf(t, '\n');
      var n := if k < |t| then k + 1 else |t|;
      var line := t[..n];
      var rest := ReadLines(t[n..]);
      assert line[..|line| - 1] == t[..n - 1];
      var body := t[..n - 1];
      assert forall i :: 0 <= i < |body| ==> body[i] != '\n';
      assert ([line] + rest)[1..] == rest;
      assert line + t[n..] == t;
      [line] + rest
  }

  /// Reading a line that ends in its only newline splits it off the front.
  lemma ReadLinesCons(line: string, rest: string)
    requires '\n' !in line
    ensures ReadLines(line + "\n" + rest) == [line + "\n"] + ReadLines(rest)
  {
    var t := line + "\n" + rest;
    assert t[|line|] == '\n';
    IndexOfAbsent(line, '\n');
    assert forall i :: 0 <= i < |line| ==> t[i] == line[i];
    assert IndexOf(t, '\n') == |line|;
    assert t[..|line| + 1] == line + "\n";
    assert t[|line| + 1..] == rest;
  }

  /// Python's universal-newline translation on reading a text file:
  /// `\r\n` and a lone `\r` both become `\n`.
  function TranslateNewlines(t: string): (r: string)
    ensures '\r' !in r
    ensures |r| <= |t|
    decreases |t|
  {
    if t == [] then ""
    else if t[0] == '\r' then
      "\n" + TranslateNewlines(if |t| > 1 && t[1] == '\n' then t[2..] else t[1..])
    else
      [t[0]] + TranslateNewlines(t[1..])
  }

  /// A Windows line ending `\r\n` after text without carriage returns
  /// reads as a single `\n`.
  lemma {:induction false} TranslateCRLF(a: string, b: string)
    requires '\r' !in a
    ensures TranslateNewlines(a + "\r\n" + b) == a + "\n" + TranslateNewlines(b)
    decreases |a|
  {
    if a == [] {
      assert ("\r\n" + b)[2..] == b;
    } else {
      assert a[0] in a;
      assert forall c :: c in a[1..] ==> c in a;
      assert (a + "\r\n" + b)[1..] == a[1..] + "\r\n" + b;
      TranslateCRLF(a[1..], b);
      assert [a[0]] + a[1..] == a;
    }
  }

  /// A lone `\r` (not followed by `\n`) after text without carriage
  /// returns reads as `\n`.
  lemma {:induction false} TranslateCR(a: string, b: string)
    requires '\r' !in a
    requires b == [] || b[0] != '\n'
    ensures TranslateNewlines(a + "\r" + b) == a + "\n" + TranslateNewlines(b)
    decreases |a|
  {
    if a == [] {
      assert ("\r" + b)[1..] == b;
    } else {
      assert a[0] in a;
      assert forall c :: c in a[1..] ==> c in a;
      assert (a + "\r" + b)[1..] == a[1..] + "\r" + b;
      TranslateCR(a[1..], b);
      assert [a[0]] + a[1..] == a;
    }
  }

  /// Text mode writing on Windows: every `\n` is written as `\r\n`.
  function ToCRLF(t: string): string
    decreases |t|
  {
    if t == [] then ""
    else (if t[0] == '\n' then "\r\n" else [t[0]]) + ToCRLF(t[1..])
  }

  /// Universal newlines undo that rewriting for text without `\r`.
  lemma {:induction false} TranslateToCRLF(t: string)
    requires '\r' !in t
    ensures TranslateNewlines(ToCRLF(t)) == t
    decreases |t|
  {
    if t != [] {
      var rest := ToCRLF(t[1..]);
      assert t[0] in t;
      assert forall c :: c in t[1..] ==> c in t;
      TranslateToCRLF(t[1..]);
      if t[0] == '\n' {
        TranslateCRLF("", rest);
        assert "" + "\r\n" + rest == ToCRLF(t);
      } else {
        var w := [t[0]] + rest;
        assert w[0] == t[0] && w[1..] == rest;
      }
      assert [t[0]] + t[1..] == t;
    }
  }

  /// Text without a carriage return reads back unchanged.
  lemma {:induction false} TranslateNewlinesIdentity(t: string)
    requires '\r' !in t
    ensures TranslateNewlines(t) == t
    decreases |t|
  {
    if t != [] {
      assert t[0] in t;
      assert forall c :: c in t[1..] ==> c in t;
      TranslateNewlinesIdentity(t[1..]);
      assert [t[0]] + t[1..] == t;
    }
  }
}
