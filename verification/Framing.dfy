// Cutting a byte stream into lines: the framer of the pool connection, which splits and pops,
// and the two of helper.js, which search for one newline after another.

module Framing {
  import opened Sequences
  import opened Strings

  // ---- what a framer should deliver and keep ----

  function Lines(s: string): seq<string> {
    Front(Split(s, '\n'))
  }

  function Rest(s: string): string {
    Last(Split(s, '\n'))
  }

  function Unlines(lines: seq<string>): string {
    if |lines| == 0 then "" else lines[0] + "\n" + Unlines(lines[1..])
  }

  lemma LinesOfCons(line: string, after: string)
    requires '\n' !in line
    ensures Lines(line + "\n" + after) == [line] + Lines(after) && Rest(line + "\n" + after) == Rest(after)
  {
    var s := line + "\n" + after;
    IndexAfter(line, after, '\n');
    assert s[..|line|] == line && s[|line| + 1..] == after;
    FrontOfCons(line, Split(after, '\n'), []);
  }

  // The lines and the rest are the text, and only the newlines after the lines are cut out.
  lemma {:induction false} LinesAreTheText(s: string)
    ensures Unlines(Lines(s)) + Rest(s) == s
    ensures '\n' !in Rest(s)
    ensures forall k :: 0 <= k < |Lines(s)| ==> '\n' !in Lines(s)[k]
    decreases |s|
  {
    var p := IndexOf(s, '\n');
    if p < 0 {
      assert Split(s, '\n') == [s];
    } else {
      var line, after := s[..p], s[p + 1..];
      assert s == line + "\n" + after;
      LinesAreTheText(after);
      LinesOfCons(line, after);
      UnlinesOfCons(line, Lines(after), Rest(after));
    }
  }

  lemma UnlinesOfCons(line: string, lines: seq<string>, rest: string)
    ensures Unlines([line] + lines) + rest == line + "\n" + (Unlines(lines) + rest)
  {
    assert ([line] + lines)[1..] == lines;
  }

  lemma LinesAppend(a: string, b: string)
    ensures Lines(a + b) == Lines(a) + Lines(Rest(a) + b)
    ensures Rest(a + b) == Rest(Rest(a) + b)
  {
    SplitAppend(a, b, '\n');
  }

  function KeepOne(line: string, p: string -> bool): seq<string> {
    if p(line) then [line] else []
  }

  function Keep(lines: seq<string>, p: string -> bool): seq<string> {
    if |lines| == 0 then [] else KeepOne(lines[0], p) + Keep(lines[1..], p)
  }

  lemma {:induction false} KeepAppend(a: seq<string>, b: seq<string>, p: string -> bool)
    ensures Keep(a + b, p) == Keep(a, p) + Keep(b, p)
  {
    if |a| == 0 {
      assert a + b == b;
    } else {
      KeepAppend(a[1..], b, p);
      var one := KeepOne(a[0], p);
      assert (a + b)[1..] == a[1..] + b && (a + b)[0] == a[0];
      assert one + (Keep(a[1..], p) + Keep(b, p)) == (one + Keep(a[1..], p)) + Keep(b, p);
    }
  }

  // What String.trim removes.
  predicate IsSpace(c: char) {
    var u := c as int;
    9 <= u <= 13 || u == 32 || u == 0xA0 || u == 0x1680 || 0x2000 <= u <= 0x200A
    || u == 0x2028 || u == 0x2029 || u == 0x202F || u == 0x205F || u == 0x3000 || u == 0xFEFF
  }

  function NotBlank(s: string): bool {
    exists i :: 0 <= i < |s| && !IsSpace(s[i])
  }

  function NotEmpty(s: string): bool {
    s != ""
  }

  function Concat(chunks: seq<string>): string {
    if |chunks| == 0 then "" else Concat(chunks[..|chunks| - 1]) + chunks[|chunks| - 1]
  }

  lemma EndsWithNewline(s: string)
    requires |s| > 0 && s[|s| - 1] == '\n'
    ensures Rest(s) == ""
  {
    SplitAtSeparator(s[..|s| - 1], "", '\n');
    assert s == s[..|s| - 1] + ['\n'] + "";
  }

  lemma NoNewline(s: string)
    requires '\n' !in s
    ensures Lines(s) == [] && Rest(s) == s
  {
  }

  // One more chunk of a stream.
  lemma OneMore(kept: string, chunks: seq<string>, i: nat, p: string -> bool)
    requires i < |chunks|
    ensures var before := kept + Concat(chunks[..i]);
            var after := kept + Concat(chunks[..i + 1]);
            && Keep(Lines(after), p) == Keep(Lines(before), p) + Keep(Lines(Rest(before) + chunks[i]), p)
            && Rest(after) == Rest(Rest(before) + chunks[i])
  {
    assert chunks[..i + 1][..i] == chunks[..i];
    var before := kept + Concat(chunks[..i]);
    assert kept + Concat(chunks[..i + 1]) == before + chunks[i];
    LinesAppend(before, chunks[i]);
    KeepAppend(Lines(before), Lines(Rest(before) + chunks[i]), p);
  }

  lemma KeepTake(lines: seq<string>, i: nat, p: string -> bool)
    requires i < |lines|
    ensures Keep(lines[..i + 1], p) == Keep(lines[..i], p) + KeepOne(lines[i], p)
  {
    assert lines[..i + 1] == lines[..i] + [lines[i]];
    KeepAppend(lines[..i], [lines[i]], p);
    assert Keep([lines[i]], p) == KeepOne(lines[i], p) + Keep([], p);
  }

  // ---- pool.js ----

  lemma BlankAtEnd(pieces: seq<string>)
    requires |pieces| > 0 && Last(pieces) == ""
    ensures Keep(pieces, NotBlank) == Keep(Front(pieces), NotBlank)
  {
    KeepTake(pieces, |pieces| - 1, NotBlank);
    assert pieces[..|pieces|] == pieces;
    assert KeepOne("", NotBlank) == [];
  }

  class PoolFramer {
    var poolDataBuff: string

    ghost predicate Valid()
      reads this
    {
      '\n' !in poolDataBuff
    }

    constructor ()
      ensures Valid() && poolDataBuff == ""
    {
      poolDataBuff := "";
    }

    // One chunk: the messages it completes, and the incomplete line kept for the next.
    method OnData(data: string) returns (messages: seq<string>)
      modifies this
      ensures Valid()
      ensures messages == Keep(Lines(old(poolDataBuff) + data), NotBlank)
      ensures poolDataBuff == Rest(old(poolDataBuff) + data)
    {
      messages := [];
      poolDataBuff := poolDataBuff + data;
      LinesAreTheText(poolDataBuff);
      if IndexOf(poolDataBuff, '\n') == -1 {
        return;
      }
      var pieces := Split(poolDataBuff, '\n');
      var incompleteLine := "";
      if poolDataBuff[|poolDataBuff| - 1] != '\n' {
        incompleteLine := Last(pieces);
        pieces := Front(pieces);
      } else {
        EndsWithNewline(poolDataBuff);
        BlankAtEnd(pieces);
      }
      for i := 0 to |pieces|
        invariant messages == Keep(pieces[..i], NotBlank)
      {
        KeepTake(pieces, i, NotBlank);
        if NotBlank(pieces[i]) {
          messages := messages + [pieces[i]];
        }
      }
      assert pieces[..|pieces|] == pieces;
      poolDataBuff := incompleteLine;
    }

    // However the stream was cut, the messages and the rest are those of the whole text.
    method OnAll(chunks: seq<string>) returns (messages: seq<string>)
      requires Valid()
      modifies this
      ensures Valid()
      ensures messages == Keep(Lines(old(poolDataBuff) + Concat(chunks)), NotBlank)
      ensures poolDataBuff == Rest(old(poolDataBuff) + Concat(chunks))
    {
      messages := [];
      NoNewline(poolDataBuff);
      assert old(poolDataBuff) + "" == old(poolDataBuff);
      for i := 0 to |chunks|
        invariant Valid()
        invariant messages == Keep(Lines(old(poolDataBuff) + Concat(chunks[..i])), NotBlank)
        invariant poolDataBuff == Rest(old(poolDataBuff) + Concat(chunks[..i]))
      {
        OneMore(old(poolDataBuff), chunks, i, NotBlank);
        var more := OnData(chunks[i]);
        messages := messages + more;
      }
      assert chunks[..|chunks|] == chunks;
    }
  }

  // ---- helper.js ----

  lemma NextLine(input: string, eol: nat, lines: seq<string>)
    requires eol == IndexOf(input, '\n')
    ensures lines + Keep(Lines(input), NotEmpty)
      == (if input[..eol] != "" then lines + [input[..eol]] else lines) + Keep(Lines(input[eol + 1..]), NotEmpty)
    ensures Rest(input) == Rest(input[eol + 1..])
  {
    var line, after := input[..eol], input[eol + 1..];
    assert input == line + "\n" + after;
    LinesOfCons(line, after);
    KeepAppend([line], Lines(after), NotEmpty);
  }

  class LineFramer {
    var input: string

    ghost predicate Valid()
      reads this
    {
      '\n' !in input
    }

    constructor ()
      ensures Valid() && input == ""
    {
      input := "";
    }

    method OnData(chunk: string) returns (lines: seq<string>)
      modifies this
      ensures Valid()
      ensures lines == Keep(Lines(old(input) + chunk), NotEmpty)
      ensures input == Rest(old(input) + chunk)
    {
      lines := [];
      input := input + chunk;
      ghost var all := input;
      var eol := IndexOf(input, '\n');
      while eol != -1
        invariant eol == IndexOf(input, '\n')
        invariant Keep(Lines(all), NotEmpty) == lines + Keep(Lines(input), NotEmpty)
        invariant Rest(all) == Rest(input)
        decreases |input|
      {
        NextLine(input, eol, lines);
        var line := input[..eol];
        input := input[eol + 1..];
        if line != "" {
          lines := lines + [line];
        }
        eol := IndexOf(input, '\n');
      }
      NoNewline(input);
    }

    method OnAll(chunks: seq<string>) returns (lines: seq<string>)
      requires Valid()
      modifies this
      ensures Valid()
      ensures lines == Keep(Lines(old(input) + Concat(chunks)), NotEmpty)
      ensures input == Rest(old(input) + Concat(chunks))
    {
      lines := [];
      NoNewline(input);
      assert old(input) + "" == old(input);
      for i := 0 to |chunks|
        invariant Valid()
        invariant lines == Keep(Lines(old(input) + Concat(chunks[..i])), NotEmpty)
        invariant input == Rest(old(input) + Concat(chunks[..i]))
      {
        OneMore(old(input), chunks, i, NotEmpty);
        var more := OnData(chunks[i]);
        lines := lines + more;
      }
      assert chunks[..|chunks|] == chunks;
    }
  }

  // The two framers differ in whitespace-only lines and nothing else.
  lemma {:induction false} SameNonBlankLines(lines: seq<string>)
    ensures Keep(Keep(lines, NotEmpty), NotBlank) == Keep(lines, NotBlank)
  {
    if |lines| > 0 {
      SameNonBlankLines(lines[1..]);
      KeepAppend(if NotEmpty(lines[0]) then [lines[0]] else [], Keep(lines[1..], NotEmpty), NotBlank);
    }
  }

  // On any stream, in any two cuts: the same lines, once blank ones are dropped, and the same
  // text kept.
  method BothFramers(chunks: seq<string>, others: seq<string>)
      returns (messages: seq<string>, lines: seq<string>, kept: string, input: string)
    requires Concat(chunks) == Concat(others)
    ensures messages == Keep(lines, NotBlank) && kept == input
  {
    var pool := new PoolFramer();
    var helper := new LineFramer();
    messages := pool.OnAll(chunks);
    lines := helper.OnAll(others);
    kept, input := pool.poolDataBuff, helper.input;
    SameNonBlankLines(Lines("" + Concat(chunks)));
  }
}
