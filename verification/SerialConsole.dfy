/** The serial console: characters collected in a fixed buffer, complete lines run as commands. */
module SerialConsole {
  import opened Bytes
  import opened CStrings
  import opened ConsoleLines

  class Console {
    const buffer: array<char>
    var index: nat
    var commands: Commands

    /** The handlers called so far, each with the line it found in the buffer. */
    ghost var called: seq<Call>

    /** The registrations made so far. */
    ghost var registered: seq<Registration>

    ghost predicate Valid()
      reads this, buffer
    {
      && buffer.Length == BUFFER_SIZE
      && index < BUFFER_SIZE
      && AllPrintable(buffer[..index])
      && commands == AllRegistered(registered)
    }

    /** The line being typed. */
    function Pending(): string
      requires index <= buffer.Length
      reads this, buffer
    {
      buffer[..index]
    }

    /** Since the handlers called were `before`, the console has run as `ran` says. */
    ghost predicate HasRun(before: seq<Call>, ran: Ran)
      requires index <= buffer.Length
      reads this, buffer
    {
      called == before + ran.calls && Pending() == ran.pending
    }

    /** The zero-initialised globals. */
    constructor ()
      ensures Valid() && fresh(buffer)
      ensures Pending() == [] && registered == [] && called == []
    {
      buffer := new char[BUFFER_SIZE](_ => NUL);
      index := 0;
      commands := map[];
      called := [];
      registered := [];
    }

    /** register_command. */
    method RegisterCommand(r: Registration)
      requires Valid()
      modifies this`commands, this`registered
      ensures Valid()
      ensures registered == old(registered) + [r]
      ensures commands == Registered(old(commands), r)
    {
      registered := registered + [r];
      assert registered[..|registered| - 1] == old(registered);
      if r.name == None {
        return;
      }
      if r.func == None {
        return;
      }
      commands := commands[r.name.value := Command(r.help, r.func.value)];
    }

    /** first_index_of: `index0` comes back when neither the character nor the end is met. */
    method FirstIndexOf(size: nat, c: char, index0: nat) returns (found: bool, at: nat)
      requires size <= buffer.Length
      ensures var s := buffer[..size];
              var end := First(s, 0, NUL);
              var hit := First(s, 0, c);
              && found == (hit < end)
              && at == if hit < end then hit else if end < size then end else index0
    {
      ghost var s := buffer[..size];
      for i := 0 to size
        invariant forall k | 0 <= k < i :: s[k] != NUL && s[k] != c
      {
        assert s[i] == buffer[i];
        if buffer[i] == NUL {
          FirstIs(s, 0, NUL, i);
          return false, i;
        }
        if buffer[i] == c {
          FirstIs(s, 0, c, i);
          return true, i;
        }
      }
      return false, index0;
    }

    /** The first half of run_command: the text before the first space, copied to a buffer of its own. */
    method CommandName() returns (name: string)
      requires Valid() && buffer[index] == NUL && NameFits(Pending())
      ensures name == Before(Pending(), COMMAND_DELIMITER)
    {
      ghost var line := Pending();
      LineEnds(buffer[..], line);
      assert buffer[..BUFFER_SIZE] == buffer[..];
      var argFound, firstArgEnd := FirstIndexOf(BUFFER_SIZE, COMMAND_DELIMITER, 0);
      if !argFound {
        argFound, firstArgEnd := FirstIndexOf(BUFFER_SIZE, NUL, firstArgEnd);
      }
      assert firstArgEnd == First(line, 0, COMMAND_DELIMITER);
      var argString := new char[NAME_SIZE](_ => NUL);
      for i := 0 to firstArgEnd
        invariant argString[..i] == line[..i]
        invariant forall k | i <= k < NAME_SIZE :: argString[k] == NUL
      {
        argString[i] := buffer[i];
      }
      CStrIs(argString[..], 0, line[..firstArgEnd]);
      var n := StrLen(argString, 0);
      name := argString[..n];
    }

    /** run_command: calls what is registered for the line's first word. */
    method RunCommand()
      requires Valid() && buffer[index] == NUL && NameFits(Pending())
      modifies this`index, this`called
      ensures index == 0
      ensures called == old(called) + CallsFor(commands, old(Pending()))
    {
      ghost var line := Pending();
      var name := CommandName();
      if name in commands {
        called := called + [Call(commands[name].func, line)];
      } else {
        assert called == called + [];
      }
      index := 0;
    }

    /** In a buffer that holds a printable line and NUL, the line's own first space and end are found. */
    static lemma {:induction false} LineEnds(s: seq<char>, line: string)
      requires |line| < |s| && s[..|line|] == line && s[|line|] == NUL && AllPrintable(line)
      ensures First(s, 0, NUL) == |line|
      ensures var hit := First(s, 0, ' ');
              First(line, 0, ' ') == if hit < |line| then hit else |line|
      ensures NUL !in line
    {
      assert forall k | 0 <= k < |line| :: s[k] == line[k];
      FirstIs(s, 0, NUL, |line|);
      var hit := First(s, 0, ' ');
      FirstIs(line, 0, ' ', if hit < |line| then hit else |line|);
    }

    /** The body of the polling loop: one character. */
    method Take(k: Key)
      requires Valid() && !Stops(k)
      requires |FeedKey(Pending(), k).pending| < BUFFER_SIZE && (k == NEWLINE ==> NameFits(Pending()))
      modifies this`index, this`called, buffer
      ensures Valid()
      ensures HasRun(old(called), Run(commands, old(Pending()), [k]))
      ensures Printable(k) ==> buffer[index] == NUL
    {
      ghost var line := Pending();
      RunOne(commands, line, k);
      if Printable(k) || k == NEWLINE {
        if k == NEWLINE {
          buffer[index] := NUL;
          assert Pending() == line;
          if index != 0 {
            RunCommand();
            index := 0;
          }
        } else {
          buffer[index] := k as char;
          index := index + 1;
          buffer[index] := NUL;
          assert Pending() == line + [k as char];
        }
      }
    }

    /** serial_poll: takes characters up to the first timeout; returns how many results it used up. */
    method SerialPoll(input: seq<Key>) returns (n: nat)
      requires Valid() && Fits(Pending(), input)
      modifies this`index, this`called, buffer
      ensures Valid()
      ensures n <= |input| && (n < |input| ==> n > 0 && (input[n - 1] == -1 || input[n - 1] == 255))
      ensures forall i | 0 <= i < n - 1 :: 0 <= input[i] <= 254
      ensures HasRun(old(called), Run(commands, old(Pending()), input[..n]))
    {
      ghost var p0 := Pending();
      n := 0;
      assert input[..0] == [];
      while n < |input| && !Stops(input[n])
        invariant n <= |input| && Valid()
        invariant forall i | 0 <= i < n :: !Stops(input[i])
        invariant HasRun(old(called), Run(commands, p0, input[..n]))
      {
        FitsStep(p0, input, n);
        RunStep(commands, p0, input, n);
        ghost var ran, before := Run(commands, p0, input[..n]), called;
        Take(input[n]);
        RunsOn(old(called), before, called, ran, Run(commands, ran.pending, [input[n]]));
        n := n + 1;
      }
      if n < |input| {
        RunStop(commands, p0, input, n);
        n := n + 1;
      }
    }

    static lemma {:induction false} FitsFrom(p: string, input: seq<Key>, n: nat)
      requires n <= |input| && Fits(p, input)
      ensures Fits(Feed(p, input[..n]).pending, input[n..])
    {
      assert input == input[..n] + input[n..];
      FitsConcat(p, input[..n], input[n..]);
    }

    static lemma {:induction false} FitsStep(p: string, input: seq<Key>, n: nat)
      requires n < |input| && Fits(p, input)
      ensures var f := Feed(p, input[..n]);
              && |f.pending| < BUFFER_SIZE && (input[n] == NEWLINE ==> NameFits(f.pending))
              && |FeedKey(f.pending, input[n]).pending| < BUFFER_SIZE
    {
      FitsFrom(p, input, n);
    }

    static lemma {:induction false} RunStep(commands: Commands, p: string, input: seq<Key>, n: nat)
      requires n < |input|
      ensures var ran := Run(commands, p, input[..n]);
              Run(commands, p, input[..n + 1]) == ran.Then(Run(commands, ran.pending, [input[n]]))
    {
      RunSlices(commands, p, input, n, n + 1);
      assert input[n..n + 1] == [input[n]];
    }

    /** The result that ends a poll adds nothing. */
    static lemma {:induction false} RunStop(commands: Commands, p: string, input: seq<Key>, n: nat)
      requires n < |input| && Stops(input[n])
      ensures Run(commands, p, input[..n + 1]) == Run(commands, p, input[..n])
    {
      var ran := Run(commands, p, input[..n]);
      RunStep(commands, p, input, n);
      RunOne(commands, ran.pending, input[n]);
      assert ran.calls + [] == ran.calls;
    }

    static lemma {:induction false} PollExtends(commands: Commands, p: string, input: seq<Key>, i: nat, n: nat)
      requires i + n <= |input|
      ensures var ran := Run(commands, p, input[..i]);
              Run(commands, p, input[..i + n]) == ran.Then(Run(commands, ran.pending, input[i..][..n]))
    {
      RunSlices(commands, p, input, i, i + n);
      assert input[i..][..n] == input[i..i + n];
    }

    static lemma {:induction false} RunsOn(c0: seq<Call>, c1: seq<Call>, c2: seq<Call>, first: Ran, next: Ran)
      requires c1 == c0 + first.calls && c2 == c1 + next.calls
      ensures c2 == c0 + first.Then(next).calls
    {
    }

    /**
     The main loop: polls until the stream is used up. However timeouts chop it, the handlers called
     are those for the non-empty complete lines of the text typed, in order; each line calls the last
     handler registered for its first word.
     */
    method PollAll(input: seq<Key>)
      requires Valid() && LinesFit(Split(Pending() + Visible(input)))
      modifies this`index, this`called, buffer
      ensures Valid()
      ensures called == old(called)
                     + CallsForAll(AllRegistered(registered), CompleteLines(old(Pending()) + Visible(input)))
      ensures Pending() == Remainder(old(Pending()) + Visible(input))
    {
      ghost var p0 := Pending();
      FitsByLines(p0, input);
      FeedSplits(p0, input);
      PollLoop(input);
    }

    /**
     The same for what was typed at an idle console: lines of printable characters that fit the buffers,
     and perhaps the beginning of another, with timeouts and other codes anywhere between the characters.
     */
    method PollTyped(input: seq<Key>, ghost bursts: seq<Burst>, ghost lines: seq<string>, ghost rest: string)
      requires Valid() && Pending() == []
      requires WellTyped(bursts) && input == Keys(bursts) && TextOf(bursts) == Typed(lines, rest)
      requires forall l | l in lines :: '\n' !in l && |l| <= 1023 && |Before(l, ' ')| <= 63
      requires '\n' !in rest && |rest| <= 1023
      modifies this`index, this`called, buffer
      ensures Valid()
      ensures called == old(called) + CallsForAll(AllRegistered(registered), NonEmpty(lines))
      ensures Pending() == rest
    {
      VisibleIsTyped(bursts);
      SplitTyped(lines, rest);
      TypedLines(lines, rest);
      assert [] + Visible(input) == Visible(input);
      forall i | 0 <= i < |lines|
        ensures |lines[i]| <= 1023 && |Before(lines[i], ' ')| <= 63
      {
        assert lines[i] in lines;
      }
      PollAll(input);
    }

    method PollLoop(input: seq<Key>)
      requires Valid() && Fits(Pending(), input)
      modifies this`index, this`called, buffer
      ensures Valid()
      ensures HasRun(old(called), Run(commands, old(Pending()), input))
    {
      ghost var p0 := Pending();
      var done := 0;
      while done < |input|
        invariant done <= |input| && Valid()
        invariant HasRun(old(called), Run(commands, p0, input[..done]))
      {
        FitsFrom(p0, input, done);
        ghost var ran, before := Run(commands, p0, input[..done]), called;
        var n := SerialPoll(input[done..]);
        PollExtends(commands, p0, input, done, n);
        RunsOn(old(called), before, called, ran, Run(commands, ran.pending, input[done..][..n]));
        done := done + n;
      }
      assert input[..done] == input;
    }
  }
}
