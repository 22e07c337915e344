// The "endpoints currently scanning" file, held as the list of lines `readlines` returns:
// one line per host GUID, each ending in a newline, except that a file prepared by hand may
// end in a line without one.

module Registry {
  /** The line that `append_to_end_of_file` writes for `s`, and that membership tests look for. */
  function Line(s: string): (l: string)
  {
    s + "\n"
  }

  /** `l` ends in a newline. */
  predicate Terminated(l: string)
  {
    |l| > 0 && l[|l| - 1] == '\n'
  }

  /** Every line ends in a newline, as in any file this program wrote itself. */
  predicate AllTerminated(lines: seq<string>)
  {
    forall l :: l in lines ==> Terminated(l)
  }

  /** The lines `readlines` returns after `s + "\n"` is written at the end of the file:
      when the last line has no newline, the text continues that line. */
  function Appended(lines: seq<string>, s: string): (r: seq<string>)
  {
    if lines != [] && !Terminated(lines[|lines| - 1]) then
      lines[..|lines| - 1] + [lines[|lines| - 1] + Line(s)]
    else lines + [Line(s)]
  }

  /** The lines of `lines` other than `x`, in their original order. */
  function Without(lines: seq<string>, x: string): (r: seq<string>)
  {
    if lines == [] then []
    else
      var rest := Without(lines[..|lines| - 1], x);
      if lines[|lines| - 1] == x then rest else rest + [lines[|lines| - 1]]
  }

  /** Two GUIDs have the same registry line only if they are the same GUID. */
  lemma LineInjective(a: string, b: string)
    ensures Line(a) == Line(b) <==> a == b
  {
    if Line(a) == Line(b) {
      assert |a| == |b|;
      assert a == Line(a)[..|a|];
      assert b == Line(b)[..|b|];
    }
  }

  /** Appending to a file whose last line ends in a newline (in particular one whose lines all
      do) adds `s + "\n"` as a separate last line. In any file, all lines before the old last one are kept, an unterminated last line
      is continued by `s + "\n"`, no other line is new, and the result ends in a newline. */
  lemma AppendedShape(lines: seq<string>, s: string)
    ensures var r := Appended(lines, s);
      (AllTerminated(lines) ==> r == lines + [Line(s)])
      && ((lines == [] || Terminated(lines[|lines| - 1])) ==> r == lines + [Line(s)])
      && (AllTerminated(lines) ==> AllTerminated(r) && Line(s) in r)
      && |r| > 0 && Terminated(r[|r| - 1])
      && (lines != [] ==> r[..|lines| - 1] == lines[..|lines| - 1])
      && (lines != [] && !Terminated(lines[|lines| - 1]) ==>
            |r| == |lines| && r[|r| - 1] == lines[|lines| - 1] + Line(s))
      && (forall l :: l in r && l != r[|r| - 1] ==> l in lines)
  {
    var r := Appended(lines, s);
    assert r[|r| - 1] == Line(s) || r[|r| - 1] == lines[|lines| - 1] + Line(s);
    if lines != [] && !Terminated(lines[|lines| - 1]) {
      assert lines[|lines| - 1] in lines;
    }
    forall l | l in r && l != r[|r| - 1]
      ensures l in lines
    {
      var k :| 0 <= k < |r| && r[k] == l;
      assert r[k] == lines[k];
    }
  }

  /** Whatever text precedes it, a line written by the program ends in a newline. */
  lemma LineTerminated(prefix: string, s: string)
    ensures Terminated(prefix + Line(s))
  {
    var l := prefix + Line(s);
    assert l[|l| - 1] == Line(s)[|s|];
  }

  /** Removal keeps only lines that were already there, so a file whose lines all end in a
      newline keeps that shape. */
  lemma WithoutKeepsTerminated(lines: seq<string>, x: string)
    requires AllTerminated(lines)
    ensures AllTerminated(Without(lines, x))
  {
    forall l | l in Without(lines, x)
      ensures Terminated(l)
    {
      WithoutMember(lines, x, l);
    }
  }

  /** After removal the removed line does not occur. */
  lemma {:induction false} WithoutNotMember(lines: seq<string>, x: string)
    ensures x !in Without(lines, x)
  {
    if lines != [] {
      WithoutNotMember(lines[..|lines| - 1], x);
    }
  }

  /** Removing a line that is not there leaves the file as it was. */
  lemma {:induction false} WithoutAbsent(lines: seq<string>, x: string)
    requires x !in lines
    ensures Without(lines, x) == lines
  {
    if lines != [] {
      var init := lines[..|lines| - 1];
      assert forall k :: 0 <= k < |init| ==> init[k] == lines[k];
      WithoutAbsent(init, x);
      assert lines == init + [lines[|lines| - 1]];
    }
  }

  /** Every line other than `x` keeps its number of occurrences; `x` has none left. */
  lemma {:induction false} WithoutCount(lines: seq<string>, x: string, y: string)
    ensures multiset(Without(lines, x))[y] == if y == x then 0 else multiset(lines)[y]
  {
    if lines != [] {
      var init := lines[..|lines| - 1];
      WithoutCount(init, x, y);
      assert lines == init + [lines[|lines| - 1]];
    }
  }

  /** Membership after removal: exactly the lines other than `x` that were there before. */
  lemma WithoutMember(lines: seq<string>, x: string, y: string)
    ensures y in Without(lines, x) <==> y != x && y in lines
  {
    WithoutCount(lines, x, y);
  }

  /** Removal works line by line, so the kept lines stay in their original relative order. */
  lemma {:induction false} WithoutConcat(a: seq<string>, b: seq<string>, x: string)
    ensures Without(a + b, x) == Without(a, x) + Without(b, x)
  {
    if b != [] {
      var init := b[..|b| - 1];
      assert (a + b)[..|a + b| - 1] == a + init;
      WithoutConcat(a, init, x);
    } else {
      assert a + b == a;
    }
  }

  /** The registry file, held as the list `readlines` returns. */
  class LineFile {
    var lines: seq<string>

    constructor (initial: seq<string>)
      ensures lines == initial
    {
      lines := initial;
    }

    /** `f.readlines()`: the current lines, unchanged. */
    method ReadLines() returns (r: seq<string>)
      ensures r == lines
    {
      r := lines;
    }

    /** `append_to_end_of_file`: writes `s + "\n"` at the end of the file. When every line ends
        in a newline, that is one new line after all earlier lines, which are unchanged. */
    method AppendToEnd(s: string)
      modifies this
      ensures lines == Appended(old(lines), s)
      ensures AllTerminated(old(lines)) ==>
        |lines| == |old(lines)| + 1 && lines[..|old(lines)|] == old(lines) && lines[|old(lines)|] == Line(s)
      ensures |lines| > 0 && Terminated(lines[|lines| - 1])
    {
      if lines != [] && !Terminated(lines[|lines| - 1]) {
        lines := lines[..|lines| - 1] + [lines[|lines| - 1] + Line(s)];
      } else {
        lines := lines + [Line(s)];
      }
    }

    /** `remove_from_file`: reads every line, then rewrites from the start only the lines
        that differ from `s + "\n"`, and truncates what is left. */
    method RemoveFrom(s: string)
      modifies this
      ensures lines == Without(old(lines), Line(s))
      ensures Line(s) !in lines
      ensures Line(s) !in old(lines) ==> lines == old(lines)
    {
      var read := lines;
      var written: seq<string> := [];
      var i := 0;
      while i < |read|
        invariant 0 <= i <= |read|
        invariant written == Without(read[..i], Line(s))
      {
        assert read[..i + 1][..i] == read[..i];
        if read[i] != Line(s) {
          written := written + [read[i]];
        }
        i := i + 1;
      }
      assert read[..i] == read;
      lines := written;
      WithoutNotMember(read, Line(s));
      if Line(s) !in read {
        WithoutAbsent(read, Line(s));
      }
    }
  }
}
