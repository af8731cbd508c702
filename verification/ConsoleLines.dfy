/** What the serial console makes of a stream of characters: its lines, and the commands they name. */
module ConsoleLines {
  import opened Bytes
  import opened CStrings

  /** A result of `getchar_timeout_us`: a character code, or -1 when none arrived in time. */
  type Key = k: int | -1 <= k < 0x100

  const NEWLINE: Key := 10
  const COMMAND_DELIMITER: char := ' '

  /** INPUT_BUFFER_SIZE and MAX_COMMAND_NAME_SIZE. */
  const BUFFER_SIZE: nat := 1024
  const NAME_SIZE: nat := 64

  /** A timeout ends a poll, and so does the character code 255. */
  predicate Stops(k: Key)
  {
    k == -1 || k == 255
  }

  /** `isprint` in the C locale. */
  predicate Printable(k: Key)
  {
    32 <= k <= 126
  }

  predicate AllPrintable(s: string)
  {
    forall k | 0 <= k < |s| :: 32 <= s[k] as int <= 126
  }

  // ---- The stream as text ----

  /** The stream filtered to printable characters and newlines. */
  function Visible(keys: seq<Key>): string
  {
    if keys == [] then []
    else (if Printable(keys[0]) || keys[0] == NEWLINE then [keys[0] as char] else []) + Visible(keys[1..])
  }

  /** A text split at its newlines; the last piece is what follows the last newline. */
  function Split(t: string): (lines: seq<string>)
    ensures lines != []
    decreases |t|
  {
    var i := First(t, 0, '\n');
    if i == |t| then [t] else [t[..i]] + Split(t[i + 1..])
  }

  function NonEmpty(lines: seq<string>): seq<string>
  {
    if lines == [] then []
    else (if lines[0] == [] then [] else [lines[0]]) + NonEmpty(lines[1..])
  }

  /** The non-empty lines that are complete. */
  function CompleteLines(t: string): seq<string>
  {
    NonEmpty(Split(t)[..|Split(t)| - 1])
  }

  /** The characters of the line still being typed. */
  function Remainder(t: string): string
  {
    Split(t)[|Split(t)| - 1]
  }

  // ---- The same, character by character ----

  datatype Fed = Fed(lines: seq<string>, pending: string)

  /** One character: a newline completes the line, a printable one extends it, others are dropped. */
  function FeedKey(pending: string, k: Key): Fed
  {
    if k == NEWLINE then Fed(if pending == [] then [] else [pending], [])
    else if Printable(k) then Fed([], pending + [k as char])
    else Fed([], pending)
  }

  function Feed(pending: string, keys: seq<Key>): Fed
    decreases |keys|
  {
    if keys == [] then Fed([], pending)
    else
      var first := FeedKey(pending, keys[0]);
      var rest := Feed(first.pending, keys[1..]);
      Fed(first.lines + rest.lines, rest.pending)
  }

  /** Feeding in pieces is feeding at once, wherever the stream is cut. */
  lemma {:induction false} FeedConcat(pending: string, a: seq<Key>, b: seq<Key>)
    ensures var f := Feed(pending, a);
            var g := Feed(f.pending, b);
            Feed(pending, a + b) == Fed(f.lines + g.lines, g.pending)
    decreases |a|
  {
    if a == [] {
      assert a + b == b;
    } else {
      var first := FeedKey(pending, a[0]);
      FeedConcat(first.pending, a[1..], b);
      assert (a + b)[1..] == a[1..] + b;
      var f := Feed(first.pending, a[1..]);
      var g := Feed(f.pending, b);
      Regroup(first.lines, f.lines, g.lines);
    }
  }

  lemma {:induction false} FeedOne(pending: string, k: Key)
    ensures Feed(pending, [k]) == FeedKey(pending, k)
  {
    var first := FeedKey(pending, k);
    assert Feed(first.pending, [k][1..]) == Fed([], first.pending);
    assert first.lines + [] == first.lines;
  }

  lemma {:induction false} SplitAtNewline(p: string, t: string)
    requires '\n' !in p
    ensures Split(p + ['\n'] + t) == [p] + Split(t)
  {
    var whole := p + ['\n'] + t;
    FirstIs(whole, 0, '\n', |p|);
    assert whole[..|p|] == p && whole[|p| + 1..] == t;
  }

  lemma {:induction false} SplitLine(p: string)
    requires '\n' !in p
    ensures Split(p) == [p]
  {
    FirstIs(p, 0, '\n', |p|);
  }

  lemma {:induction false} CompleteAtNewline(p: string, t: string)
    requires '\n' !in p
    ensures CompleteLines(p + ['\n'] + t) == (if p == [] then [] else [p]) + CompleteLines(t)
    ensures Remainder(p + ['\n'] + t) == Remainder(t)
  {
    SplitAtNewline(p, t);
    var s := Split(t);
    assert ([p] + s)[..|s|] == [p] + s[..|s| - 1];
    assert ([p] + s[..|s| - 1])[1..] == s[..|s| - 1];
  }

  lemma {:induction false} Regroup<T>(a: seq<T>, b: seq<T>, c: seq<T>)
    ensures a + (b + c) == a + b + c
  {
  }

  /** What feeding one character does to the text that the line and the stream make up. */
  lemma {:induction false} VisibleStep(pending: string, keys: seq<Key>)
    requires keys != []
    ensures pending + Visible(keys)
         == (if keys[0] == NEWLINE then pending + ['\n'] else FeedKey(pending, keys[0]).pending) + Visible(keys[1..])
  {
    if Printable(keys[0]) || keys[0] == NEWLINE {
      Regroup(pending, [keys[0] as char], Visible(keys[1..]));
    } else {
      assert [] + Visible(keys[1..]) == Visible(keys[1..]);
    }
  }

  /** Character by character, the lines are those of the filtered stream split at newlines. */
  lemma {:induction false} FeedSplits(pending: string, keys: seq<Key>)
    requires '\n' !in pending
    ensures Feed(pending, keys) == Fed(CompleteLines(pending + Visible(keys)), Remainder(pending + Visible(keys)))
    decreases |keys|
  {
    if keys == [] {
      assert pending + [] == pending;
      SplitLine(pending);
    } else {
      var next, rest := FeedKey(pending, keys[0]).pending, keys[1..];
      FeedSplits(next, rest);
      VisibleStep(pending, keys);
      if keys[0] == NEWLINE {
        CompleteAtNewline(pending, Visible(rest));
        assert [] + Visible(rest) == Visible(rest);
      } else {
        assert [] + Feed(next, rest).lines == Feed(next, rest).lines;
      }
    }
  }

  // ---- Text as it is typed ----

  /** Printable characters, codes 32 to 126, and newlines. */
  predicate Typable(t: string)
  {
    forall k | 0 <= k < |t| :: 32 <= t[k] as int <= 126 || t[k] == '\n'
  }

  function Codes(t: string): seq<Key>
    requires Typable(t)
  {
    seq(|t|, k requires 0 <= k < |t| => t[k] as int)
  }

  /** Text typed at once, and then results that are no text: timeouts, control characters, codes above 126. */
  datatype Burst = Burst(text: string, noise: seq<Key>)

  predicate WellTyped(bursts: seq<Burst>)
  {
    forall b | b in bursts :: Typable(b.text) && forall k | k in b.noise :: !(32 <= k <= 126) && k != 10
  }

  /** What arrives. */
  function Keys(bursts: seq<Burst>): seq<Key>
    requires WellTyped(bursts)
  {
    if bursts == [] then [] else Codes(bursts[0].text) + (bursts[0].noise + Keys(bursts[1..]))
  }

  /** What was typed. */
  function TextOf(bursts: seq<Burst>): string
  {
    if bursts == [] then [] else bursts[0].text + TextOf(bursts[1..])
  }

  lemma {:induction false} VisibleAfterText(t: string, keys: seq<Key>)
    requires Typable(t)
    ensures Visible(Codes(t) + keys) == t + Visible(keys)
    decreases |t|
  {
    if t == [] {
      assert Codes(t) + keys == keys;
    } else {
      VisibleAfterText(t[1..], keys);
      var all := Codes(t) + keys;
      assert all[0] as char == t[0];
      assert all[1..] == Codes(t[1..]) + keys;
      assert t == [t[0]] + t[1..];
    }
  }

  lemma {:induction false} VisibleAfterNoise(noise: seq<Key>, keys: seq<Key>)
    requires forall k | k in noise :: !(32 <= k <= 126) && k != 10
    ensures Visible(noise + keys) == Visible(keys)
    decreases |noise|
  {
    if noise == [] {
      assert noise + keys == keys;
    } else {
      assert noise[0] in noise && forall k | k in noise[1..] :: k in noise;
      VisibleAfterNoise(noise[1..], keys);
      assert (noise + keys)[1..] == noise[1..] + keys;
    }
  }

  /** The filtered stream is exactly what was typed. */
  lemma {:induction false} VisibleIsTyped(bursts: seq<Burst>)
    requires WellTyped(bursts)
    ensures Visible(Keys(bursts)) == TextOf(bursts)
  {
    if bursts != [] {
      var rest := Keys(bursts[1..]);
      VisibleIsTyped(bursts[1..]);
      VisibleAfterText(bursts[0].text, bursts[0].noise + rest);
      VisibleAfterNoise(bursts[0].noise, rest);
    }
  }

  /** Every stream is made of bursts: the filter passes codes 32 to 126 and 10, and nothing else. */
  lemma {:induction false} EveryStreamIsTyped(keys: seq<Key>) returns (bursts: seq<Burst>)
    ensures WellTyped(bursts) && Keys(bursts) == keys
    decreases |keys|
  {
    if keys == [] {
      bursts := [];
    } else {
      var rest := EveryStreamIsTyped(keys[1..]);
      var k := keys[0];
      var first := if 32 <= k <= 126 || k == 10 then Burst([k as char], []) else Burst([], [k]);
      bursts := [first] + rest;
      assert bursts[1..] == rest;
      assert Codes(first.text) + first.noise == [k];
      assert Codes(first.text) + (first.noise + keys[1..]) == [k] + keys[1..];
    }
  }

  /** Lines, each with its newline, and a last one still without. */
  function Typed(lines: seq<string>, rest: string): string
  {
    if lines == [] then rest else lines[0] + ['\n'] + Typed(lines[1..], rest)
  }

  /** Such a text splits into those lines. */
  lemma {:induction false} SplitTyped(lines: seq<string>, rest: string)
    requires (forall l | l in lines :: '\n' !in l) && '\n' !in rest
    ensures Split(Typed(lines, rest)) == lines + [rest]
  {
    if lines == [] {
      SplitLine(rest);
    } else {
      assert lines[0] in lines;
      SplitTyped(lines[1..], rest);
      SplitAtNewline(lines[0], Typed(lines[1..], rest));
      assert lines + [rest] == [lines[0]] + (lines[1..] + [rest]);
    }
  }

  lemma {:induction false} TypedLines(lines: seq<string>, rest: string)
    requires (forall l | l in lines :: '\n' !in l) && '\n' !in rest
    ensures CompleteLines(Typed(lines, rest)) == NonEmpty(lines)
    ensures Remainder(Typed(lines, rest)) == rest
  {
    SplitTyped(lines, rest);
    assert (lines + [rest])[..|lines|] == lines;
  }

  /** Lines none of which is empty are all kept, in order. */
  lemma {:induction false} NonEmptyKeeps(lines: seq<string>)
    requires forall k | 0 <= k < |lines| :: lines[k] != ""
    ensures NonEmpty(lines) == lines
  {
    if lines != [] {
      NonEmptyKeeps(lines[1..]);
      assert lines == [lines[0]] + lines[1..];
    }
  }

  /** And empty lines make no difference. */
  lemma {:induction false} EmptyIsDropped(before: seq<string>, after: seq<string>)
    ensures NonEmpty(before + [""] + after) == NonEmpty(before + after)
  {
    var all := before + [""] + after;
    if before == [] {
      assert all[1..] == after && before + after == after;
    } else {
      EmptyIsDropped(before[1..], after);
      assert all[1..] == before[1..] + [""] + after;
      assert (before + after)[1..] == before[1..] + after;
    }
  }

  /** What was typed, from the first character on, makes just the lines typed. */
  lemma {:induction false} FeedTyped(bursts: seq<Burst>, lines: seq<string>, rest: string)
    requires WellTyped(bursts) && TextOf(bursts) == Typed(lines, rest)
    requires (forall l | l in lines :: '\n' !in l) && '\n' !in rest
    ensures Feed([], Keys(bursts)) == Fed(NonEmpty(lines), rest)
  {
    FeedSplits([], Keys(bursts));
    VisibleIsTyped(bursts);
    TypedLines(lines, rest);
    assert [] + Visible(Keys(bursts)) == Visible(Keys(bursts));
  }

  // ---- What fits the buffers ----

  predicate NameFits(line: string)
  {
    |Before(line, COMMAND_DELIMITER)| < NAME_SIZE
  }

  /** No line outgrows the receive buffer, no completed line's first word the name buffer. */
  predicate Fits(pending: string, keys: seq<Key>)
    decreases |keys|
  {
    && |pending| < BUFFER_SIZE
    && (keys != [] ==>
          && (keys[0] == NEWLINE ==> NameFits(pending))
          && Fits(FeedKey(pending, keys[0]).pending, keys[1..]))
  }

  lemma {:induction false} FitsConcat(pending: string, a: seq<Key>, b: seq<Key>)
    ensures Fits(pending, a + b) <==> Fits(pending, a) && Fits(Feed(pending, a).pending, b)
    decreases |a|
  {
    if a == [] {
      assert a + b == b;
      assert Fits(pending, b) ==> |pending| < BUFFER_SIZE;
    } else {
      FitsConcat(FeedKey(pending, a[0]).pending, a[1..], b);
      assert (a + b)[1..] == a[1..] + b;
    }
  }

  /** At most 1023 characters to a line, and 63 to a complete line's first word. */
  predicate LinesFit(lines: seq<string>)
  {
    && (forall i | 0 <= i < |lines| :: |lines[i]| <= 1023)
    && (forall i | 0 <= i < |lines| - 1 :: |Before(lines[i], ' ')| <= 63)
  }

  lemma {:induction false} LinesFitCons(p: string, lines: seq<string>)
    requires lines != []
    ensures LinesFit([p] + lines) <==> |p| < BUFFER_SIZE && NameFits(p) && LinesFit(lines)
  {
    var all := [p] + lines;
    assert forall i | 0 <= i < |lines| :: lines[i] == all[i + 1];
    assert all[0] == p;
    assert forall i | 1 <= i < |all| :: all[i] == lines[i - 1];
  }

  /** The limits in terms of the text: those are its lines. */
  lemma {:induction false} FitsByLines(pending: string, keys: seq<Key>)
    requires '\n' !in pending
    ensures Fits(pending, keys) <==> LinesFit(Split(pending + Visible(keys)))
    decreases |keys|
  {
    if keys == [] {
      assert pending + [] == pending;
      SplitLine(pending);
      assert Split(pending)[0] == pending;
    } else {
      var next, rest := FeedKey(pending, keys[0]).pending, keys[1..];
      FitsByLines(next, rest);
      VisibleStep(pending, keys);
      if keys[0] == NEWLINE {
        SplitAtNewline(pending, Visible(rest));
        assert [] + Visible(rest) == Visible(rest);
        LinesFitCons(pending, Split(Visible(rest)));
      } else {
        FirstLineStartsWith(pending, Visible(keys));
      }
    }
  }

  lemma {:induction false} FirstLineStartsWith(p: string, t: string)
    requires '\n' !in p
    ensures |p| <= |Split(p + t)[0]|
  {
    assert forall k | 0 <= k < |p| :: (p + t)[k] == p[k];
  }

  // ---- Commands ----

  /** A command's function, which the model does not look into. */
  type Handler = nat

  datatype Command = Command(help: Option<string>, func: Handler)

  /** A `command_t`, whose name and function may be null. */
  datatype Registration = Registration(name: Option<string>, help: Option<string>, func: Option<Handler>)

  type Commands = map<string, Command>

  function Registered(commands: Commands, r: Registration): Commands
  {
    if r.name.None? || r.func.None? then commands
    else commands[r.name.value := Command(r.help, r.func.value)]
  }

  function AllRegistered(rs: seq<Registration>): Commands
  {
    if rs == [] then map[] else Registered(AllRegistered(rs[..|rs| - 1]), rs[|rs| - 1])
  }

  predicate Names(r: Registration, name: string)
  {
    r.name == Some(name) && r.func.Some?
  }

  /** A handler called for a line. */
  datatype Call = Call(func: Handler, line: string)

  /** What running a line calls: the function of the command named before the first space, if any. */
  function CallsFor(commands: Commands, line: string): seq<Call>
  {
    var name := Before(line, COMMAND_DELIMITER);
    if name in commands then [Call(commands[name].func, line)] else []
  }

  function CallsForAll(commands: Commands, lines: seq<string>): seq<Call>
  {
    if lines == [] then [] else CallsFor(commands, lines[0]) + CallsForAll(commands, lines[1..])
  }

  lemma {:induction false} CallsConcat(commands: Commands, a: seq<string>, b: seq<string>)
    ensures CallsForAll(commands, a + b) == CallsForAll(commands, a) + CallsForAll(commands, b)
    decreases |a|
  {
    if a == [] {
      assert a + b == b;
    } else {
      var rest := a[1..];
      CallsConcat(commands, rest, b);
      assert (a + b)[1..] == rest + b && (a + b)[0] == a[0];
      Regroup(CallsFor(commands, a[0]), CallsForAll(commands, rest), CallsForAll(commands, b));
    }
  }

  /** What a stream of characters makes the console call, and the line it leaves. */
  datatype Ran = Ran(calls: seq<Call>, pending: string)
  {
    /** This, and then that. */
    function Then(next: Ran): Ran
    {
      Ran(calls + next.calls, next.pending)
    }
  }

  function Run(commands: Commands, pending: string, keys: seq<Key>): Ran
  {
    var f := Feed(pending, keys);
    Ran(CallsForAll(commands, f.lines), f.pending)
  }

  lemma {:induction false} RunSlices(commands: Commands, pending: string, keys: seq<Key>, i: nat, j: nat)
    requires i <= j <= |keys|
    ensures var first := Run(commands, pending, keys[..i]);
            Run(commands, pending, keys[..j]) == first.Then(Run(commands, first.pending, keys[i..j]))
  {
    assert keys[..j] == keys[..i] + keys[i..j];
    FeedConcat(pending, keys[..i], keys[i..j]);
    var f := Feed(pending, keys[..i]);
    CallsConcat(commands, f.lines, Feed(f.pending, keys[i..j]).lines);
  }

  lemma {:induction false} RunOne(commands: Commands, pending: string, k: Key)
    ensures Run(commands, pending, [k])
         == if k == NEWLINE then Ran(if pending == [] then [] else CallsFor(commands, pending), [])
            else Ran([], if Printable(k) then pending + [k as char] else pending)
  {
    FeedOne(pending, k);
    if k == NEWLINE && pending != [] {
      assert [pending][1..] == [];
      assert CallsForAll(commands, [pending]) == CallsFor(commands, pending) + [];
    }
  }

  /** Of a word alone or a word, a space and arguments, the word is looked up and the whole line is kept. */
  lemma {:induction false} WordIsLookedUp(commands: Commands, word: string, arguments: string)
    requires ' ' !in word
    ensures var calls := (line: string) => if word in commands then [Call(commands[word].func, line)] else [];
            && CallsFor(commands, word) == calls(word)
            && CallsFor(commands, word + [' '] + arguments) == calls(word + [' '] + arguments)
  {
    BeforeIs(word, ' ', arguments);
  }

  /** A line is answered by the last of the registrations for its first word, or by none if there is none. */
  lemma {:induction false} LastRegistrationRuns(rs: seq<Registration>, line: string)
    ensures var calls := CallsFor(AllRegistered(rs), line);
            var name := Before(line, ' ');
            || (calls == [] && forall i | 0 <= i < |rs| :: !Names(rs[i], name))
            || (exists i | 0 <= i < |rs| ::
                  && Names(rs[i], name) && calls == [Call(rs[i].func.value, line)]
                  && forall j | i < j < |rs| :: !Names(rs[j], name))
    decreases |rs|
  {
    if rs != [] {
      var n := |rs| - 1;
      var name := Before(line, ' ');
      LastRegistrationRuns(rs[..n], line);
      if Names(rs[n], name) {
        assert CallsFor(AllRegistered(rs), line) == [Call(rs[n].func.value, line)];
      } else {
        assert CallsFor(AllRegistered(rs), line) == CallsFor(AllRegistered(rs[..n]), line);
        if exists i | 0 <= i < n :: Names(rs[..n][i], name) {
          var i :| 0 <= i < n && Names(rs[..n][i], name)
                   && CallsFor(AllRegistered(rs[..n]), line) == [Call(rs[..n][i].func.value, line)]
                   && forall j | i < j < n :: !Names(rs[..n][j], name);
          assert forall j | 0 <= j < n :: rs[..n][j] == rs[j];
          assert forall j | i < j < |rs| :: !Names(rs[j], name);
        } else {
          assert forall j | 0 <= j < n :: rs[j] == rs[..n][j];
        }
      }
    }
  }
}
