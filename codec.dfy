/** The wire grammar of the storage controller: a command or a reply is a
    string of fields separated by `|`; parsing splits on every `|` and trims
    each field the way Python's `str.strip()` without arguments does. */
module Codec {

  /** The parsed fields of a command or of a reply. */
  type Fields = seq<string>

  const Pipe: char := '|'

  /** Python's `str.isspace()`: the characters `str.strip()` removes. */
  predicate IsSpace(c: char) {
    var n := c as int;
    (0x09 <= n <= 0x0D) || (0x1C <= n <= 0x20) || n == 0x85 || n == 0xA0 || n == 0x1680
    || (0x2000 <= n <= 0x200A) || n == 0x2028 || n == 0x2029 || n == 0x202F
    || n == 0x205F || n == 0x3000
  }

  predicate AllSpace(s: string) {
    forall i :: 0 <= i < |s| ==> IsSpace(s[i])
  }

  /** No whitespace at either end. */
  predicate Trimmed(s: string) {
    s == [] || (!IsSpace(s[0]) && !IsSpace(s[|s| - 1]))
  }

  /** Every field trimmed and free of separators: what parsing produces. */
  predicate Clean(fs: Fields) {
    forall i :: 0 <= i < |fs| ==> Trimmed(fs[i]) && Pipe !in fs[i]
  }

  /** Number of separators in `s`. */
  function Pipes(s: string): nat {
    if s == [] then 0 else (if s[0] == Pipe then 1 else 0) + Pipes(s[1..])
  }

  /** Removes leading whitespace. */
  function StripStart(s: string): (r: string)
    ensures |r| <= |s|
  {
    if s != [] && IsSpace(s[0]) then StripStart(s[1..]) else s
  }

  /** Removes trailing whitespace. */
  function StripEnd(s: string): (r: string)
    ensures |r| <= |s|
  {
    if s != [] && IsSpace(s[|s| - 1]) then StripEnd(s[..|s| - 1]) else s
  }

  /** `StripStart` keeps the longest suffix that does not start with
      whitespace: what it cuts is all whitespace. */
  lemma {:induction false} StripStartCut(s: string)
    ensures StripStart(s) == s[|s| - |StripStart(s)|..]
    ensures AllSpace(s[..|s| - |StripStart(s)|])
    ensures StripStart(s) == [] || !IsSpace(StripStart(s)[0])
  {
    if s != [] && IsSpace(s[0]) {
      var t, r := s[1..], StripStart(s[1..]);
      StripStartCut(t);
      var k := |s| - |r|;
      assert t[|t| - |r|..] == s[k..];
      forall j | 0 <= j < k ensures IsSpace(s[j]) {
        if j > 0 {
          assert s[j] == t[..|t| - |r|][j - 1];
        }
      }
    }
  }

  /** `StripEnd` keeps the longest prefix that does not end with whitespace:
      what it cuts is all whitespace. */
  lemma {:induction false} StripEndCut(s: string)
    ensures StripEnd(s) == s[..|StripEnd(s)|]
    ensures AllSpace(s[|StripEnd(s)|..])
    ensures StripEnd(s) == [] || !IsSpace(StripEnd(s)[|StripEnd(s)| - 1])
  {
    if s != [] && IsSpace(s[|s| - 1]) {
      var t, r := s[..|s| - 1], StripEnd(s[..|s| - 1]);
      StripEndCut(t);
      assert t[..|r|] == s[..|r|];
      forall j | |r| <= j < |s| ensures IsSpace(s[j]) {
        if j < |s| - 1 {
          assert s[j] == t[|r|..][j - |r|];
        }
      }
    }
  }

  /** `str.strip()`: whitespace removed at both ends. */
  function Strip(s: string): (r: string)
    ensures Trimmed(r)
    ensures |r| <= |s|
  {
    var t := StripStart(s);
    var r := StripEnd(t);
    StripStartCut(s);
    StripEndCut(t);
    assert r != [] ==> r[0] == t[0];
    r
  }

  /** `Strip` removes only whitespace: its result is an infix of `s` with
      nothing but whitespace before and after it. */
  lemma StripInfix(s: string)
    ensures exists i :: 0 <= i <= |s| - |Strip(s)| && Strip(s) == s[i..i + |Strip(s)|]
                        && AllSpace(s[..i]) && AllSpace(s[i + |Strip(s)|..])
  {
    StripStartCut(s);
    StripEndCut(StripStart(s));
    TrimmedInfix(s, StripStart(s), Strip(s));
  }

  /** `Strip` adds no character: one absent from `s` is absent from the
      result. */
  lemma StripKeepsOut(s: string, c: char)
    requires c !in s
    ensures c !in Strip(s)
  {
    var t, r := StripStart(s), Strip(s);
    StripStartCut(s);
    StripEndCut(t);
    var k := |s| - |t|;
    forall j | 0 <= j < |r| ensures r[j] != c {
      assert r[j] == t[j] == s[k + j];
    }
  }

  /** A prefix `r` of a suffix `t` of `s`, where both cuts removed only
      whitespace, is an infix of `s` surrounded by whitespace. */
  lemma TrimmedInfix(s: string, t: string, r: string)
    requires |t| <= |s| && t == s[|s| - |t|..] && AllSpace(s[..|s| - |t|])
    requires |r| <= |t| && r == t[..|r|] && AllSpace(t[|r|..])
    ensures exists i :: 0 <= i <= |s| - |r| && r == s[i..i + |r|]
                        && AllSpace(s[..i]) && AllSpace(s[i + |r|..])
  {
    var i := |s| - |t|;
    assert r == s[i..i + |r|];
    assert s[i + |r|..] == t[|r|..];
  }

  /** The inverse of `Split`: the fields glued back with `|`. */
  function Join(fs: seq<string>): string {
    if |fs| == 0 then []
    else if |fs| == 1 then fs[0]
    else fs[0] + [Pipe] + Join(fs[1..])
  }

  /** `Join` on a list given by its head and tail. */
  lemma JoinCons(h: string, t: seq<string>)
    ensures Join([h] + t) == if t == [] then h else h + [Pipe] + Join(t)
  {
    assert ([h] + t)[0] == h && ([h] + t)[1..] == t;
  }

  lemma ConcatShift(c: char, a: string, j: string)
    ensures [c] + a + [Pipe] + j == [c] + (a + [Pipe] + j)
  {
  }

  /** Prepending a non-separator character to a joined string extends its
      first field. */
  lemma JoinExtendHead(c: char, fs: seq<string>)
    requires |fs| >= 1
    ensures Join([[c] + fs[0]] + fs[1..]) == [c] + Join(fs)
  {
    var t := fs[1..];
    assert fs == [fs[0]] + t;
    JoinCons(fs[0], t);
    JoinCons([c] + fs[0], t);
    if t != [] {
      ConcatShift(c, fs[0], Join(t));
    }
  }

  /** `str.split('|')`: one piece per separator plus one, and no piece holds
      a separator. */
  function Split(s: string): (r: seq<string>)
    ensures |r| == Pipes(s) + 1
    ensures forall i :: 0 <= i < |r| ==> Pipe !in r[i]
  {
    if s == [] then [[]]
    else
      var rest := Split(s[1..]);
      assert s == [s[0]] + s[1..];
      if s[0] == Pipe then [[]] + rest
      else [[s[0]] + rest[0]] + rest[1..]
  }

  /** `parse_modula`: split on `|` and strip every field. */
  function ParseModula(comando: string): (r: Fields)
    ensures |r| == Pipes(comando) + 1
    ensures Clean(r)
  {
    var pieces := Split(comando);
    assert forall i :: 0 <= i < |pieces| ==> Pipe !in Strip(pieces[i]) by {
      forall i | 0 <= i < |pieces| ensures Pipe !in Strip(pieces[i]) {
        StripKeepsOut(pieces[i], Pipe);
      }
    }
    seq(|pieces|, i requires 0 <= i < |pieces| => Strip(pieces[i]))
  }

  // Properties of the string operations

  /** Leading whitespace in front of a string that does not itself start with
      whitespace is exactly what `StripStart` removes. */
  lemma {:induction false} StripStartSkips(a: string, t: string)
    requires AllSpace(a)
    requires t == [] || !IsSpace(t[0])
    ensures StripStart(a + t) == t
  {
    if a != [] {
      assert (a + t)[1..] == a[1..] + t;
      StripStartSkips(a[1..], t);
    }
  }

  lemma {:induction false} StripEndSkips(t: string, b: string)
    requires AllSpace(b)
    requires t == [] || !IsSpace(t[|t| - 1])
    ensures StripEnd(t + b) == t
  {
    if b != [] {
      assert (t + b)[..|t + b| - 1] == t + b[..|b| - 1];
      StripEndSkips(t, b[..|b| - 1]);
    }
  }

  /** `Strip` is determined by its contract: surrounding a trimmed string with
      whitespace on both sides and stripping gives it back. */
  lemma StripUnique(a: string, m: string, b: string)
    requires AllSpace(a) && AllSpace(b) && Trimmed(m)
    ensures Strip(a + m + b) == m
  {
    if m == [] {
      assert a + m + b == (a + b) + [];
      StripStartSkips(a + b, []);
    } else {
      assert a + m + b == a + (m + b);
      StripStartSkips(a, m + b);
      StripEndSkips(m, b);
    }
  }

  /** A trimmed string is its own strip. */
  lemma StripOfTrimmed(m: string)
    requires Trimmed(m)
    ensures Strip(m) == m
  {
    assert [] + m == m && m + [] == m;
    StripStartSkips([], m);
    StripEndSkips(m, []);
  }

  /** Stripping is idempotent and leaves a trimmed string unchanged. */
  lemma StripTrimmed(s: string)
    ensures Trimmed(s) ==> Strip(s) == s
    ensures Strip(Strip(s)) == Strip(s)
  {
    if Trimmed(s) {
      StripOfTrimmed(s);
    }
    StripOfTrimmed(Strip(s));
  }

  /** A string without separators is one field. */
  lemma {:induction false} SplitNoPipe(a: string)
    requires Pipe !in a
    ensures Split(a) == [a]
  {
    if a != [] {
      SplitNoPipe(a[1..]);
      assert [a[0]] + a[1..] == a;
    }
  }

  /** A separator-free field followed by `|` splits off as the first piece. */
  lemma {:induction false} SplitAfterField(a: string, s: string)
    requires Pipe !in a
    ensures Split(a + [Pipe] + s) == [a] + Split(s)
  {
    var x := a + [Pipe] + s;
    if a == [] {
      assert x == [Pipe] + s && x[1..] == s;
    } else {
      assert x[0] == a[0] && x[1..] == a[1..] + [Pipe] + s;
      SplitAfterField(a[1..], s);
      SplitExtend(x, a, Split(s));
    }
  }

  /** One step of `SplitAfterField`: a non-separator head extends the first
      piece of the rest. */
  lemma SplitExtend(x: string, a: string, tail: seq<string>)
    requires x != [] && a != [] && x[0] == a[0] && a[0] != Pipe
    requires Split(x[1..]) == [a[1..]] + tail
    ensures Split(x) == [a] + tail
  {
    var rest := Split(x[1..]);
    assert rest[0] == a[1..] && rest[1..] == tail;
    assert [a[0]] + a[1..] == a;
  }

  /** Splitting loses nothing: joining the pieces with `|` gives back the
      input. */
  lemma {:induction false} JoinSplit(s: string)
    ensures Join(Split(s)) == s
  {
    if s != [] {
      var rest := Split(s[1..]);
      JoinSplit(s[1..]);
      assert s == [s[0]] + s[1..];
      if s[0] == Pipe {
        assert Split(s) == [[]] + rest && rest != [];
        JoinCons([], rest);
        assert [] + [Pipe] + s[1..] == s;
      } else {
        assert Split(s) == [[s[0]] + rest[0]] + rest[1..];
        JoinExtendHead(s[0], rest);
      }
    }
  }

  /** `Split` inverts `Join` on separator-free fields. */
  lemma {:induction false} SplitJoin(fs: seq<string>)
    requires |fs| >= 1
    requires forall i :: 0 <= i < |fs| ==> Pipe !in fs[i]
    ensures Split(Join(fs)) == fs
  {
    if |fs| == 1 {
      SplitNoPipe(fs[0]);
    } else {
      SplitJoin(fs[1..]);
      SplitAfterField(fs[0], Join(fs[1..]));
      assert [fs[0]] + fs[1..] == fs;
    }
  }

  /** Field `i` of the parse is piece `i` of the split, stripped. */
  lemma ParseFieldwise(s: string)
    ensures |ParseModula(s)| == |Split(s)|
    ensures forall i :: 0 <= i < |Split(s)| ==> ParseModula(s)[i] == Strip(Split(s)[i])
  {
  }

  /** Joining separator-free pieces and parsing strips each piece. */
  lemma ParsePieces(s: string, fs: seq<string>, wire: seq<string>)
    requires |fs| >= 1 && |wire| == |fs|
    requires forall i :: 0 <= i < |fs| ==> Pipe !in wire[i]
    requires forall i :: 0 <= i < |fs| ==> Strip(wire[i]) == fs[i]
    requires s == Join(wire)
    ensures ParseModula(s) == fs
  {
    SplitJoin(wire);
    ParseFieldwise(s);
  }

  lemma StripPadded(fs: seq<string>, pre: seq<string>, post: seq<string>, wire: seq<string>)
    requires |pre| == |fs| && |post| == |fs| && |wire| == |fs|
    requires forall i :: 0 <= i < |fs| ==> Trimmed(fs[i]) && Pipe !in fs[i]
    requires forall i :: 0 <= i < |fs| ==> AllSpace(pre[i]) && AllSpace(post[i])
    requires forall i :: 0 <= i < |fs| ==> wire[i] == pre[i] + fs[i] + post[i]
    ensures forall i :: 0 <= i < |fs| ==> Strip(wire[i]) == fs[i] && Pipe !in wire[i]
  {
    forall i | 0 <= i < |fs|
      ensures Strip(wire[i]) == fs[i]
    {
      StripUnique(pre[i], fs[i], post[i]);
    }
  }

  /** `parse_modula` recovers trimmed, separator-free fields however much
      whitespace surrounds each of them on the wire. */
  lemma ParsePadded(s: string, fs: seq<string>, pre: seq<string>, post: seq<string>, wire: seq<string>)
    requires |fs| >= 1 && |pre| == |fs| && |post| == |fs| && |wire| == |fs|
    requires forall i :: 0 <= i < |fs| ==> Trimmed(fs[i]) && Pipe !in fs[i]
    requires forall i :: 0 <= i < |fs| ==> AllSpace(pre[i]) && AllSpace(post[i])
    requires forall i :: 0 <= i < |fs| ==> wire[i] == pre[i] + fs[i] + post[i]
    requires s == Join(wire)
    ensures ParseModula(s) == fs
  {
    StripPadded(fs, pre, post, wire);
    ParsePieces(s, fs, wire);
  }

  /** A string without separators parses to the single trimmed field. */
  lemma ParseNoPipe(s: string)
    requires Pipe !in s
    ensures ParseModula(s) == [Strip(s)]
  {
    SplitNoPipe(s);
    var r := ParseModula(s);
    assert |r| == 1;
    assert r[0] == Strip(s);
  }

  /** A clean single field parses to itself. */
  lemma ParseSingleField(s: string)
    requires Pipe !in s && Trimmed(s)
    ensures ParseModula(s) == [s]
  {
    ParseNoPipe(s);
    StripTrimmed(s);
  }

  /** The transport-failure sentinel parses to itself. */
  lemma ParseSentinel()
    ensures ParseModula("-99") == ["-99"]
  {
    ParseSingleField("-99");
  }

  /** Round trip: joining clean fields and parsing gives them back. */
  lemma ParseJoin(fs: seq<string>)
    requires |fs| >= 1
    requires Clean(fs)
    ensures ParseModula(Join(fs)) == fs
  {
    forall i | 0 <= i < |fs| ensures Strip(fs[i]) == fs[i] {
      StripTrimmed(fs[i]);
    }
    ParsePieces(Join(fs), fs, fs);
  }

  /** Four fields glued with separators. */
  lemma JoinFour(a: string, b: string, c: string, d: string)
    ensures Join([a, b, c, d]) == a + [Pipe] + b + [Pipe] + c + [Pipe] + d
  {
    JoinCons(c, [d]);
    assert [c, d] == [c] + [d];
    JoinCons(b, [c, d]);
    assert [b, c, d] == [b] + [c, d];
    JoinCons(a, [b, c, d]);
    assert [a, b, c, d] == [a] + [b, c, d];
  }

  /** The padded wire form of the example command, field by field. */
  lemma ExampleWire(s: string, fs: seq<string>, pre: seq<string>, post: seq<string>, wire: seq<string>)
    requires s == "01 | 02 | CALL | 10" && fs == ["01", "02", "CALL", "10"]
    requires pre == ["", " ", " ", " "] && post == [" ", " ", " ", ""]
    requires wire == ["01 ", " 02 ", " CALL ", " 10"]
    ensures s == Join(wire)
    ensures forall i :: 0 <= i < |fs| ==> wire[i] == pre[i] + fs[i] + post[i]
  {
    JoinFour("01 ", " 02 ", " CALL ", " 10");
  }

  /** The example's fields are clean and its padding is whitespace. */
  lemma ExamplePadding(fs: seq<string>, pre: seq<string>, post: seq<string>)
    requires fs == ["01", "02", "CALL", "10"]
    requires pre == ["", " ", " ", " "] && post == [" ", " ", " ", ""]
    ensures forall i :: 0 <= i < |fs| ==> Trimmed(fs[i]) && Pipe !in fs[i]
    ensures forall i :: 0 <= i < |fs| ==> AllSpace(pre[i]) && AllSpace(post[i])
  {
    assert AllSpace(" ") && AllSpace("");
  }

  /** Whitespace around the separators is dropped. */
  lemma ParseExample(s: string)
    requires s == "01 | 02 | CALL | 10"
    ensures ParseModula(s) == ["01", "02", "CALL", "10"]
  {
    var fs := ["01", "02", "CALL", "10"];
    var pre, post := ["", " ", " ", " "], [" ", " ", " ", ""];
    var wire := ["01 ", " 02 ", " CALL ", " 10"];
    ExampleWire(s, fs, pre, post, wire);
    ExamplePadding(fs, pre, post);
    ParsePadded(s, fs, pre, post, wire);
  }
}
