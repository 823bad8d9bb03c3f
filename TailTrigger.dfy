/**
 * The tail trigger node: the `tail` command line it builds from the node's
 * parameters, and the handler it registers for the `data` events of the
 * spawned process's standard output.
 */
module TailTrigger {
  import opened Wrappers
  import opened Text
  import opened Framing

  // ---------------------------------------------------------------------------
  // Parameters and the command line
  // ---------------------------------------------------------------------------

  /** The node's "Options" collection; either option may be absent. */
  datatype Options = Options(nLines: Option<int>, deduplicate: Option<bool>)

  /** `options.nLines as number || 0`: the option when it is truthy, else 0. */
  function SeedLineCount(nLines: Option<int>): (n: int)
    ensures n == 0 <==> nLines.None? || nLines.value == 0
    ensures n != 0 ==> nLines == Some(n)
  {
    if nLines.Some? && nLines.value != 0 then nLines.value else 0
  }

  /** `options.deduplicate as boolean` as the handler's `!deduplicate` reads
      it: an absent option filters nothing. */
  function Deduplicates(deduplicate: Option<bool>): (d: bool)
    ensures d <==> deduplicate == Some(true)
  {
    deduplicate.Some? && deduplicate.value
  }

  const CommandPrefix: string := "tail -F -n "

  /** The shell command: follow the file by name, starting with the last
      `nLines` lines; directory and file expression are concatenated as given. */
  function Command(directory: string, file: string, nLines: Option<int>): (command: string)
    ensures CommandPrefix <= command
    ensures |directory + file| <= |command| && command[|command| - |directory + file|..] == directory + file
  {
    CommandPrefix + IntToString(SeedLineCount(nLines)) + " " + directory + file
  }

  /** What a `tail -F -n N PATH` command line asks for. */
  datatype TailInvocation = TailInvocation(lines: int, path: string)

  /** The first position of `c` in `s`, if any. */
  function IndexOf(s: string, c: char): (r: Option<nat>)
    ensures r.Some? ==> r.value < |s| && s[r.value] == c && c !in s[..r.value]
    ensures r.None? ==> c !in s
  {
    if s == [] then None
    else if s[0] == c then Some(0)
    else match IndexOf(s[1..], c)
      case None => None
      case Some(k) =>
        assert s[..k + 1] == [s[0]] + s[1..][..k];
        Some(k + 1)
  }

  /** Reads a command line of the shape the trigger builds: the prefix, an
      integer, one space, and the rest as the path. */
  function ParseCommand(command: string): Option<TailInvocation> {
    if !(CommandPrefix <= command) then None
    else
      var rest := command[|CommandPrefix|..];
      match IndexOf(rest, ' ')
      case None => None
      case Some(k) =>
        match ParseInt(rest[..k])
        case None => None
        case Some(n) => Some(TailInvocation(n, rest[k + 1..]))
  }

  /** The command names exactly the seed-line count and the path
      `directory + file`: nothing is lost or inserted between them. */
  lemma CommandRoundTrip(directory: string, file: string, nLines: Option<int>)
    ensures ParseCommand(Command(directory, file, nLines))
         == Some(TailInvocation(SeedLineCount(nLines), directory + file))
  {
    var n := SeedLineCount(nLines);
    var t := IntToString(n);
    var path := directory + file;
    var command := Command(directory, file, nLines);
    assert command == CommandPrefix + (t + [' '] + path);
    var rest := command[|CommandPrefix|..];
    assert rest == t + [' '] + path;
    assert ' ' !in t by {
      forall k | 0 <= k < |t| ensures t[k] != ' ' {
      }
    }
    IndexOfFirst(t, ' ', path);
    assert rest[..|t|] == t;
    assert rest[|t| + 1..] == path;
    IntToStringRoundTrip(n);
  }

  lemma {:induction false} IndexOfFirst(x: string, c: char, y: string)
    requires c !in x
    ensures IndexOf(x + [c] + y, c) == Some(|x|)
  {
    if x != [] {
      IndexOfFirst(x[1..], c, y);
      assert (x + [c] + y)[1..] == x[1..] + [c] + y;
    } else {
      assert x + [c] + y == [c] + y;
    }
  }

  /** The defaults of the node: no seed lines; directory and file are joined
      with no separator. */
  lemma CommandExample()
    ensures Command("/home/user/", "file*.log", None) == "tail -F -n 0 /home/user/file*.log"
    ensures Command("/var/log", "syslog", Some(5)) == "tail -F -n 5 /var/logsyslog"
  {
  }

  // ---------------------------------------------------------------------------
  // The stdout handler
  // ---------------------------------------------------------------------------

  /** The `data` handler with the closure variable `previous` it updates.
      `seen` and `emitted` record, for the proof, every non-blank line
      framed so far and every line forwarded so far. */
  class DataHandler {
    const deduplicate: bool
    var previous: string
    ghost var seen: seq<string>
    ghost var emitted: seq<string>

    ghost predicate Valid()
      reads this
    {
      && (forall i :: 0 <= i < |seen| ==> !AllWhitespace(seen[i]) && LineFeed !in seen[i])
      && previous == LastLine("", seen)
      && emitted == Emitted("", seen, deduplicate)
      && (forall i :: 0 <= i < |emitted| ==> !AllWhitespace(emitted[i]) && LineFeed !in emitted[i])
    }

    /** `let previous = ""`. */
    constructor (deduplicate: bool)
      ensures Valid()
      ensures this.deduplicate == deduplicate
      ensures previous == "" && seen == [] && emitted == []
    {
      this.deduplicate := deduplicate;
      previous := "";
      seen := [];
      emitted := [];
    }

    /** One `data` event: frame the chunk, then forward each line unless it
        repeats `previous` under deduplication, updating `previous` always.
        `out` is what is emitted, in order. */
    method ProcessChunk(chunk: string) returns (out: seq<string>)
      requires Valid()
      modifies this
      ensures Valid()
      ensures out == Emitted(old(previous), ChunkLines(chunk), deduplicate)
      ensures previous == LastLine(old(previous), ChunkLines(chunk))
      ensures forall i :: 0 <= i < |out| ==> !AllWhitespace(out[i]) && LineFeed !in out[i]
      ensures AllWhitespace(chunk) ==> out == [] && previous == old(previous)
      ensures seen == old(seen) + ChunkLines(chunk)
      ensures emitted == old(emitted) + out
      ensures IsSubsequence(emitted, seen)
      ensures !deduplicate ==> emitted == seen
      ensures deduplicate ==> NoAdjacentDuplicates(emitted)
      ensures seen != [] ==> emitted != [] && emitted[0] == seen[0]
    {
      var lines := ChunkLines(chunk);
      out := ForwardLines(lines);
      EmittedElements(old(previous), lines, deduplicate);
      ChunkLinesEmptyIff(chunk);
      ExtendHistory(seen, lines, deduplicate);
      seen := seen + lines;
      emitted := emitted + out;
    }

    /** The `for (const line of lines)` loop of the handler. */
    method ForwardLines(lines: seq<string>) returns (out: seq<string>)
      modifies this`previous
      ensures out == Emitted(old(previous), lines, deduplicate)
      ensures previous == LastLine(old(previous), lines)
    {
      ghost var start := previous;
      out := [];
      for i := 0 to |lines|
        invariant out == Emitted(start, lines[..i], deduplicate)
        invariant previous == LastLine(start, lines[..i])
      {
        var line := lines[i];
        if !deduplicate || line != previous {
          out := out + [line];
        }
        EmittedSnoc(start, lines[..i], line, deduplicate);
        assert lines[..i + 1] == lines[..i] + [line];
        previous := line;
      }
      assert lines[..|lines|] == lines;
    }
  }

  /** Appending a chunk's lines to the history keeps the handler's invariant
      and what follows from it. */
  lemma ExtendHistory(seen: seq<string>, lines: seq<string>, deduplicate: bool)
    requires forall i :: 0 <= i < |seen| ==> !AllWhitespace(seen[i]) && LineFeed !in seen[i]
    requires forall i :: 0 <= i < |lines| ==> !AllWhitespace(lines[i]) && LineFeed !in lines[i]
    ensures forall i :: 0 <= i < |seen + lines| ==> !AllWhitespace((seen + lines)[i]) && LineFeed !in (seen + lines)[i]
    ensures Emitted("", seen + lines, deduplicate)
         == Emitted("", seen, deduplicate) + Emitted(LastLine("", seen), lines, deduplicate)
    ensures LastLine("", seen + lines) == LastLine(LastLine("", seen), lines)
    ensures IsSubsequence(Emitted("", seen + lines, deduplicate), seen + lines)
    ensures !deduplicate ==> Emitted("", seen + lines, deduplicate) == seen + lines
    ensures deduplicate ==> NoAdjacentDuplicates(Emitted("", seen + lines, deduplicate))
    ensures seen + lines != [] ==> (Emitted("", seen + lines, deduplicate) != []
                                    && Emitted("", seen + lines, deduplicate)[0] == (seen + lines)[0])
    ensures forall i :: 0 <= i < |Emitted("", seen + lines, deduplicate)| ==>
              !AllWhitespace(Emitted("", seen + lines, deduplicate)[i]) && LineFeed !in Emitted("", seen + lines, deduplicate)[i]
  {
    var all := seen + lines;
    forall i | 0 <= i < |all| ensures !AllWhitespace(all[i]) && LineFeed !in all[i] {
      if i >= |seen| {
        assert all[i] == lines[i - |seen|];
      }
    }
    EmittedAppend("", seen, lines, deduplicate);
    StreamFacts(all, deduplicate);
    EmittedElements("", all, deduplicate);
  }

  /** `trigger()` after reading its parameters: the command it hands to `sh -c`
      and the handler it attaches to the child's standard output. */
  method Trigger(directory: string, file: string, options: Options)
    returns (command: string, handler: DataHandler)
    ensures command == Command(directory, file, options.nLines)
    ensures fresh(handler) && handler.Valid()
    ensures handler.deduplicate == Deduplicates(options.deduplicate)
    ensures handler.previous == "" && handler.seen == [] && handler.emitted == []
  {
    command := Command(directory, file, options.nLines);
    handler := new DataHandler(Deduplicates(options.deduplicate));
  }
}
