/** The newline-to-`<br>` expander: one pass to size the output, one to write it. */
module HtmlHelper {
  import opened Bytes
  import opened CStrings

  const BR: string := "<br>"

  function Piece(c: char): string
  {
    if c == '\n' then BR else [c]
  }

  /** The text with every newline replaced. */
  function Expand(s: string): string
  {
    if s == [] then [] else Piece(s[0]) + Expand(s[1..])
  }

  /** What undoing it means: every "<br>", from the left, replaced by a newline. */
  function Restore(t: string): string
  {
    if t == [] then [] else if BR <= t then ['\n'] + Restore(t[4..]) else [t[0]] + Restore(t[1..])
  }

  function Newlines(s: string): nat
  {
    if s == [] then 0 else (if s[0] == '\n' then 1 else 0) + Newlines(s[1..])
  }

  /** The text has a "<br>" at index `i`. */
  predicate BrAt(s: string, i: nat)
  {
    i <= |s| && BR <= s[i..]
  }

  ghost predicate HasBr(s: string)
  {
    exists i: nat :: BrAt(s, i)
  }

  /** The output has no newline and is three characters longer for each one there was. */
  lemma {:induction false} ExpandSize(s: string)
    ensures '\n' !in Expand(s)
    ensures |Expand(s)| == |s| + 3 * Newlines(s)
  {
    if s != [] {
      ExpandSize(s[1..]);
      assert '\n' !in Piece(s[0]);
    }
  }

  lemma {:induction false} ExpandSplit(s: string, i: nat)
    requires i <= |s|
    ensures Expand(s) == Expand(s[..i]) + Expand(s[i..])
  {
    if i == 0 {
      assert s[..0] == [] && s[0..] == s;
    } else {
      ExpandSplit(s[1..], i - 1);
      assert s[..i][1..] == s[1..][..i - 1] && s[1..][i - 1..] == s[i..];
    }
  }

  function Joined(lines: seq<string>, between: string): string
    requires lines != []
  {
    if |lines| == 1 then lines[0] else lines[0] + between + Joined(lines[1..], between)
  }

  lemma {:induction false} ExpandLine(line: string)
    requires '\n' !in line
    ensures Expand(line) == line
  {
    if line != [] {
      ExpandLine(line[1..]);
      assert line == [line[0]] + line[1..];
    }
  }

  /** Lines joined by newlines come out as the same lines joined by `<br>`. */
  lemma {:induction false} ExpandLines(lines: seq<string>)
    requires lines != [] && forall k | 0 <= k < |lines| :: '\n' !in lines[k]
    ensures Expand(Joined(lines, "\n")) == Joined(lines, "<br>")
  {
    ExpandLine(lines[0]);
    if |lines| > 1 {
      var rest := Joined(lines[1..], "\n");
      ExpandLines(lines[1..]);
      assert lines[0] + "\n" + rest == lines[0] + ("\n" + rest);
      ExpandConcat(lines[0], "\n" + rest);
      assert ("\n" + rest)[1..] == rest;
    }
  }

  lemma {:induction false} ExpandConcat(s: string, t: string)
    ensures Expand(s + t) == Expand(s) + Expand(t)
  {
    ExpandSplit(s + t, |s|);
    assert (s + t)[..|s|] == s && (s + t)[|s|..] == t;
  }

  /** A "<br>" of the text's own is not told apart from an inserted one. */
  lemma {:induction false} OwnBrIsLost()
    ensures Restore(Expand("<br>")) == "\n" && HasBr("<br>")
  {
    RestoreExpand(BR);
    RestoreBr("");
    assert BR + "" == BR && BR[0..] == BR;
    assert BrAt(BR, 0);
  }

  lemma {:induction false} ExpandAppend(s: string, c: char)
    ensures Expand(s + [c]) == Expand(s) + Piece(c)
  {
    ExpandSplit(s + [c], |s|);
    assert (s + [c])[..|s|] == s && (s + [c])[|s|..] == [c];
    assert Expand([c]) == Piece(c);
  }

  /** No "<br>" straddles an inserted one: a prefix of it in the output is the same prefix in the text. */
  lemma {:induction false} NoStraddling(s: string, p: string)
    requires p == "br>" || p == "r>" || p == ">" || p == ""
    ensures p <= Expand(s) <==> p <= s
  {
    if p != "" && s != [] {
      if s[0] == p[0] {
        NoStraddling(s[1..], p[1..]);
        assert Expand(s)[1..] == Expand(s[1..]);
        assert p <= Expand(s) <==> p[1..] <= Expand(s)[1..] by {
          assert p == [p[0]] + p[1..];
        }
        assert p <= s <==> p[1..] <= s[1..];
      } else {
        assert Expand(s)[0] == Piece(s[0])[0] != p[0];
      }
    }
  }

  lemma {:induction false} RestorePiece(c: char, t: string)
    requires !(BR <= [c] + t)
    ensures Restore([c] + t) == [c] + Restore(t)
  {
    assert ([c] + t)[1..] == t;
  }

  lemma {:induction false} RestoreBr(t: string)
    ensures Restore(BR + t) == ['\n'] + Restore(t)
  {
    assert (BR + t)[4..] == t;
  }

  /** Undoing the expansion gives what undoing would have made of the text itself. */
  lemma {:induction false} RestoreExpand(s: string)
    ensures Restore(Expand(s)) == Restore(s)
    decreases |s|
  {
    if s == [] {
    } else if s[0] == '\n' {
      RestoreExpand(s[1..]);
      RestoreBr(Expand(s[1..]));
    } else if BR <= s {
      var rest := s[4..];
      assert s == BR + rest;
      ExpandSplit(s, 4);
      assert s[..4] == BR;
      assert Expand(BR) == BR by {
        assert BR[1..] == "br>" && BR[1..][1..] == "r>" && BR[1..][1..][1..] == ">" && BR[1..][1..][1..][1..] == "";
      }
      RestoreBr(Expand(rest));
      RestoreExpand(rest);
    } else {
      RestoreExpand(s[1..]);
      NoStraddling(s[1..], "br>");
      assert Expand(s) == [s[0]] + Expand(s[1..]);
      assert BR == ['<'] + "br>";
      assert BR <= s <==> s[0] == '<' && "br>" <= s[1..];
      assert BR <= Expand(s) <==> s[0] == '<' && "br>" <= Expand(s)[1..];
      RestorePiece(s[0], Expand(s[1..]));
    }
  }

  /** Undoing leaves a text alone exactly when it has no "<br>"; otherwise it shortens it. */
  lemma {:induction false} RestoreKeeps(s: string)
    ensures |Restore(s)| <= |s|
    ensures Restore(s) == s <==> !HasBr(s)
    decreases |s|
  {
    if s == [] {
    } else if BR <= s {
      RestoreKeeps(s[4..]);
      assert BrAt(s, 0) by {
        assert s[0..] == s;
      }
      assert |Restore(s)| < |s|;
    } else {
      RestoreKeeps(s[1..]);
      assert Restore(s)[1..] == Restore(s[1..]);
      assert s == [s[0]] + s[1..];
      if HasBr(s) {
        var i: nat :| BrAt(s, i);
        assert i > 0 by {
          assert s[0..] == s;
        }
        assert s[1..][i - 1..] == s[i..];
        assert BrAt(s[1..], i - 1);
      }
      if HasBr(s[1..]) {
        var i: nat :| BrAt(s[1..], i);
        assert s[1..][i..] == s[i + 1..];
        assert BrAt(s, i + 1);
      }
    }
  }

  /** The expansion can be undone exactly when the text had no "<br>" of its own. */
  lemma {:induction false} LosslessIff(s: string)
    ensures Restore(Expand(s)) == s <==> !HasBr(s)
  {
    RestoreExpand(s);
    RestoreKeeps(s);
  }

  /** The next character's piece extends the expansion of the text so far, within that of the whole. */
  lemma {:induction false} ExpandNext(text: string, i: nat)
    requires i < |text|
    ensures Expand(text[..i + 1]) == Expand(text[..i]) + Piece(text[i])
    ensures |Expand(text[..i + 1])| <= |Expand(text)|
  {
    assert text[..i + 1] == text[..i] + [text[i]];
    ExpandAppend(text[..i], text[i]);
    ExpandSplit(text, i + 1);
  }

  /** The first pass: the size of the output. */
  method SizePass(input: array<char>, inputLength: nat) returns (outputLength: nat)
    requires inputLength <= input.Length
    ensures outputLength == |Expand(input[..inputLength])|
  {
    ghost var text := input[..inputLength];
    outputLength := 0;
    for i := 0 to inputLength
      invariant outputLength == |Expand(text[..i])|
    {
      ExpandNext(text, i);
      if input[i] == '\n' {
        outputLength := outputLength + 4;
      } else {
        outputLength := outputLength + 1;
      }
    }
    assert text[..inputLength] == text;
  }

  /** The second pass: the output, character by character. */
  method WritePass(dst: array<char>, input: array<char>, inputLength: nat) returns (outputIndex: nat)
    requires dst != input && inputLength <= input.Length
    requires |Expand(input[..inputLength])| <= dst.Length
    modifies dst
    ensures outputIndex == |Expand(input[..inputLength])|
    ensures WrittenAt(old(dst[..]), dst[..], 0, Expand(input[..inputLength]))
  {
    ghost var text, before := input[..inputLength], dst[..];
    outputIndex := 0;
    for i := 0 to inputLength
      invariant outputIndex == |Expand(text[..i])| <= dst.Length
      invariant WrittenAt(before, dst[..], 0, Expand(text[..i]))
    {
      ExpandNext(text, i);
      ghost var was := dst[..];
      outputIndex := PutPiece(dst, outputIndex, input[i]);
      PieceIsWritten(before, was, dst[..], text, i);
    }
    assert text[..inputLength] == text;
  }

  lemma {:induction false} PieceIsWritten(before: string, was: string, now: string, text: string, i: nat)
    requires i < |text|
    requires WrittenAt(before, was, 0, Expand(text[..i]))
    requires WrittenAt(was, now, |Expand(text[..i])|, Piece(text[i]))
    ensures WrittenAt(before, now, 0, Expand(text[..i + 1]))
  {
    ExpandNext(text, i);
    WrittenThen(before, was, now, 0, Expand(text[..i]), Piece(text[i]));
  }

  /** One turn of the second pass; returns the advanced output index. */
  method PutPiece(dst: array<char>, at: nat, c: char) returns (next: nat)
    requires at + |Piece(c)| <= dst.Length
    modifies dst
    ensures next == at + |Piece(c)|
    ensures WrittenAt(old(dst[..]), dst[..], at, Piece(c))
  {
    ghost var before := dst[..];
    if c == '\n' {
      dst[at] := '<';
      dst[at + 1] := 'b';
      dst[at + 2] := 'r';
      dst[at + 3] := '>';
      next := at + 4;
    } else {
      dst[at] := c;
      next := at + 1;
    }
    WrittenPointwise(before, dst[..], at, Piece(c));
  }

  /**
   replace_newlines_with_html. The size counted by the first pass is the number of characters the
   second one writes; behind them comes NUL, and nothing else of `dst` changes.
   */
  method ReplaceNewlines(dst: array<char>, input: array<char>) returns (outputLength: nat)
    requires dst != input && Terminated(input[..], 0)
    requires |Expand(CStr(input[..], 0))| < dst.Length
    modifies dst
    ensures outputLength == |Expand(CStr(input[..], 0))|
    ensures dst[..] == Expand(CStr(input[..], 0)) + [NUL] + old(dst[..])[outputLength + 1..]
  {
    ghost var before := dst[..];
    var inputLength := StrLen(input, 0);
    assert input[..inputLength] == CStr(input[..], 0);
    outputLength := SizePass(input, inputLength);
    var outputIndex := WritePass(dst, input, inputLength);
    dst[outputIndex] := NUL;
    assert dst[..] == Expand(input[..inputLength]) + [NUL] + before[outputIndex + 1..];
  }
}
