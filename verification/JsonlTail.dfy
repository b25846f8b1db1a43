/** The backwards chunked reader of JSONL files and the forward line counter beside it
    (internal/aip2p/team/jsonl_helpers.go). */
module JsonlTail {
  import opened Options
  import opened Text

  // ---------- Reference: a plain forward split ----------

  function NonBlank(lines: seq<string>): (out: seq<string>) {
    if lines == [] then []
    else (if Trim(lines[0]) == "" then [] else [Trim(lines[0])]) + NonBlank(lines[1..])
  }

  /** The trimmed non-blank lines of a file, first line first. */
  function ForwardLines(file: string): seq<string> {
    NonBlank(Split(file, '\n'))
  }

  function Reverse(s: seq<string>): (r: seq<string>)
    ensures |r| == |s|
  {
    if s == [] then [] else Reverse(s[1..]) + [s[0]]
  }

  /** The last `limit` lines, last line first. */
  function Tail(lines: seq<string>, limit: int): (r: seq<string>)
    ensures |r| == if limit <= 0 then 0 else if limit < |lines| then limit else |lines|
  {
    if limit <= 0 then []
    else if limit < |lines| then Reverse(lines[|lines| - limit..])
    else Reverse(lines)
  }

  lemma {:induction false} NonBlankConcat(a: seq<string>, b: seq<string>)
    ensures NonBlank(a + b) == NonBlank(a) + NonBlank(b)
  {
    hide Trim;
    if a == [] {
      assert a + b == b;
    } else {
      assert (a + b)[1..] == a[1..] + b;
      NonBlankConcat(a[1..], b);
    }
  }

  lemma NonBlankOne(line: string)
    ensures NonBlank([line]) == if Trim(line) == "" then [] else [Trim(line)]
  {
    hide Trim;
    assert [line][1..] == [];
  }

  lemma EmptyFile()
    ensures ForwardLines("") == []
  {
    NonBlankOne("");
  }

  lemma {:induction false} ReverseConcat(a: seq<string>, b: seq<string>)
    ensures Reverse(a + b) == Reverse(b) + Reverse(a)
  {
    if a == [] {
      assert a + b == b;
    } else {
      assert (a + b)[1..] == a[1..] + b;
      ReverseConcat(a[1..], b);
    }
  }

  lemma ReverseSnoc(s: seq<string>, last: string)
    ensures Reverse(s + [last]) == [last] + Reverse(s)
  {
    ReverseConcat(s, [last]);
  }

  lemma {:induction false} ReverseTwice(s: seq<string>)
    ensures Reverse(Reverse(s)) == s
  {
    if s != [] {
      ReverseConcat(Reverse(s[1..]), [s[0]]);
      ReverseTwice(s[1..]);
    }
  }

  /** Cutting the last line off a text takes at most one line off the forward reading. */
  lemma CutLastLine(head: string, line: string)
    requires '\n' !in line
    ensures ForwardLines(head + ['\n'] + line) == ForwardLines(head) + if Trim(line) == "" then [] else [Trim(line)]
  {
    hide Trim;
    SplitAt(head, '\n', line);
    SplitPlain(line, '\n');
    NonBlankConcat(Split(head, '\n'), [line]);
    NonBlankOne(line);
  }

  lemma OnePiece(text: string)
    requires '\n' !in text
    ensures ForwardLines(text) == if Trim(text) == "" then [] else [Trim(text)]
  {
    hide Trim;
    SplitPlain(text, '\n');
    NonBlankOne(text);
  }

  /** A forward reading that ends in the reverse of what was collected has it as its tail. */
  lemma TailOfSuffix(all: seq<string>, head: seq<string>, collected: seq<string>, limit: int)
    requires limit > 0 && |collected| <= limit
    requires all == head + Reverse(collected)
    requires |collected| == limit || head == []
    ensures Tail(all, limit) == collected
  {
    ReverseTwice(collected);
    if limit < |all| {
      assert all[|all| - limit..] == Reverse(collected);
    } else {
      assert head == [];
      assert all == Reverse(collected);
    }
  }

  // ---------- The reader ----------

  /** The lines once one more piece of the file has been read off its end; a blank piece adds none. */
  function AddLine(lines: seq<string>, piece: string): seq<string> {
    if Trim(piece) == "" then lines else lines + [Trim(piece)]
  }

  lemma AddLineKeeps(all: seq<string>, piece: string, lines: seq<string>)
    ensures all + (if Trim(piece) == "" then [] else [Trim(piece)]) + Reverse(lines) == all + Reverse(AddLine(lines, piece))
  {
    hide Trim, Reverse;
    if Trim(piece) != "" {
      ReverseSnoc(lines, Trim(piece));
    }
  }

  /** What is still to be read of the file, and what has been: together the whole forward reading. */
  ghost predicate Splits(file: string, unread: string, lines: seq<string>) {
    ForwardLines(file) == ForwardLines(unread) + Reverse(lines)
  }

  lemma TakeLine(file: string, head: string, buf: string, i: nat, lines: seq<string>)
    requires i < |buf| && buf[i] == '\n' && '\n' !in buf[i + 1..] && Splits(file, head + buf, lines)
    ensures Splits(file, head + buf[..i], AddLine(lines, buf[i + 1..]))
  {
    hide ForwardLines, Reverse, AddLine, Trim;
    var before := head + buf[..i];
    assert before + ['\n'] + buf[i + 1..] == head + buf;
    CutLastLine(before, buf[i + 1..]);
    AddLineKeeps(ForwardLines(before), buf[i + 1..], lines);
  }

  /** The inner loop: take lines off the end of the buffer until it holds no newline or the limit is reached. */
  method DrainBuffer(ghost file: string, ghost head: string, buffer: string, limit: int, collected: seq<string>)
    returns (buf: string, lines: seq<string>)
    requires Splits(file, head + buffer, collected) && |collected| < limit
    ensures Splits(file, head + buf, lines) && |lines| <= limit
    ensures |lines| < limit ==> '\n' !in buf
  {
    hide Splits, Trim;
    buf, lines := buffer, collected;
    var i := |buf| - 1;
    while i >= 0 && |lines| < limit
      invariant -1 <= i < |buf| && |lines| <= limit
      invariant Splits(file, head + buf, lines)
      invariant forall k :: i < k < |buf| ==> buf[k] != '\n'
      decreases i
    {
      if buf[i] != '\n' {
        i := i - 1;
        continue;
      }
      TakeLine(file, head, buf, i, lines);
      var line := Trim(buf[i + 1..]);
      if line != "" {
        lines := lines + [line];
      }
      buf := buf[..i];
      i := i - 1;
    }
  }

  lemma NothingRead(file: string)
    ensures Splits(file, file[..|file|] + "", [])
  {
    assert file[..|file|] + "" == file;
  }

  /** The first piece of the file, when the limit has not been reached before it. */
  lemma TakeFirst(file: string, remaining: string, lines: seq<string>, limit: int)
    requires Splits(file, "" + remaining, lines) && '\n' !in remaining && |lines| < limit
    ensures AddLine(lines, remaining) == Tail(ForwardLines(file), limit)
  {
    hide ForwardLines, Reverse, Trim, Tail, AddLine;
    assert "" + remaining == remaining;
    OnePiece(remaining);
    var all := ForwardLines(file);
    AddLineKeeps([], remaining, lines);
    assert all == [] + Reverse(AddLine(lines, remaining));
    AddLineSize(lines, remaining);
    TailOfSuffix(all, [], AddLine(lines, remaining), limit);
  }

  lemma AddLineSize(lines: seq<string>, piece: string)
    ensures |AddLine(lines, piece)| <= |lines| + 1
  {}

  lemma LimitReached(file: string, unread: string, lines: seq<string>, limit: int)
    requires Splits(file, unread, lines) && |lines| == limit && limit > 0
    ensures lines == Tail(ForwardLines(file), limit)
  {
    hide ForwardLines, Reverse, Tail;
    TailOfSuffix(ForwardLines(file), ForwardLines(unread), lines, limit);
  }

  /** readLastJSONLLines with the chunk size as a parameter (8192 in the source). */
  method ReadLastLines(file: string, limit: int, chunk: nat) returns (lines: seq<string>)
    requires chunk >= 1
    ensures lines == Tail(ForwardLines(file), limit)
  {
    hide Trim, ForwardLines, Splits;
    lines := [];
    if limit <= 0 || |file| == 0 {
      EmptyFile();
      return;
    }
    var remaining := "";
    var offset := |file|;
    NothingRead(file);
    while offset > 0 && |lines| < limit
      invariant 0 <= offset <= |file| && |lines| <= limit
      invariant Splits(file, file[..offset] + remaining, lines)
      invariant |lines| < limit ==> '\n' !in remaining
    {
      var readSize := if chunk > offset then offset else chunk;
      ghost var unread := file[..offset] + remaining;
      offset := offset - readSize;
      var buf := file[offset..offset + readSize];
      if |remaining| > 0 {
        buf := buf + remaining;
        remaining := "";
      }
      assert file[..offset] + buf == unread;
      buf, lines := DrainBuffer(file, file[..offset], buf, limit, lines);
      remaining := buf;
    }
    if |lines| < limit {
      assert file[..offset] == "";
      TakeFirst(file, remaining, lines, limit);
      var line := Trim(remaining);
      if line != "" {
        lines := lines + [line];
      }
    } else {
      LimitReached(file, file[..offset] + remaining, lines, limit);
    }
  }

  // ---------- The counter ----------

  predicate Scannable(lines: seq<string>) {
    forall k :: 0 <= k < |lines| ==> |lines[k]| < MAX_SCAN_TOKEN
  }

  /** The bytes before the next newline at or after `from`. */
  method NextLine(file: string, from: nat) returns (end: nat)
    requires from <= |file|
    ensures from <= end <= |file|
    ensures forall k :: from <= k < end ==> file[k] != '\n'
    ensures end < |file| ==> file[end] == '\n'
  {
    end := from;
    while end < |file| && file[end] != '\n'
      invariant from <= end <= |file|
      invariant forall k :: from <= k < end ==> file[k] != '\n'
    {
      end := end + 1;
    }
  }

  /** bufio.ScanLines drops one carriage return at the end of a line. */
  function DropCarriageReturn(line: string): string {
    if |line| > 0 && line[|line| - 1] == '\r' then line[..|line| - 1] else line
  }

  lemma DropCarriageReturnTrims(line: string)
    ensures Trim(DropCarriageReturn(line)) == Trim(line)
  {
    if |line| > 0 && line[|line| - 1] == '\r' {
      assert line == line[..|line| - 1] + "\r";
      TrimDropsCarriageReturn(line[..|line| - 1]);
    }
  }

  /** countNonEmptyJSONLLines; None is the scanner's "token too long" error. */
  method CountNonEmptyLines(file: string) returns (count: Option<nat>)
    ensures count.Some? <==> Scannable(Split(file, '\n'))
    ensures count.Some? ==> count.value == |ForwardLines(file)|
  {
    hide Trim, Split, NonBlank;
    var n := 0;
    var pos := 0;
    ghost var done: seq<string> := [];
    assert file[0..] == file;
    EmptyPrefix(Split(file, '\n'));
    while pos < |file|
      invariant 0 <= pos <= |file|
      invariant done + Split(file[pos..], '\n') == Split(file, '\n')
      invariant n == |NonBlank(done)|
      invariant Scannable(done)
    {
      var end := NextLine(file, pos);
      var line := file[pos..end];
      FirstLine(file, pos, end);
      assert Split(file, '\n')[|done|] == line;
      if |line| >= MAX_SCAN_TOKEN {
        return None;
      }
      DropCarriageReturnTrims(line);
      NonBlankConcat(done, [line]);
      NonBlankOne(line);
      if Trim(DropCarriageReturn(line)) != "" {
        n := n + 1;
      }
      if end == |file| {
        assert done + [line] == Split(file, '\n');
        return Some(n);
      }
      assert done + ([line] + Split(file[end + 1..], '\n')) == (done + [line]) + Split(file[end + 1..], '\n');
      done := done + [line];
      pos := end + 1;
    }
    assert file[pos..] == "";
    SplitPlain("", '\n');
    NonBlankConcat(done, [""]);
    NonBlankOne("");
    BlankTrims();
    return Some(n);
  }

  lemma EmptyPrefix(lines: seq<string>)
    ensures NonBlank([]) == [] && [] + lines == lines
  {}

  lemma FirstLine(file: string, pos: nat, end: nat)
    requires pos <= end <= |file| && '\n' !in file[pos..end]
    requires end < |file| ==> file[end] == '\n'
    ensures Split(file[pos..], '\n') == [file[pos..end]] + if end < |file| then Split(file[end + 1..], '\n') else []
  {
    var line := file[pos..end];
    SplitPlain(line, '\n');
    if end < |file| {
      assert file[pos..] == line + ['\n'] + file[end + 1..];
      SplitAt(line, '\n', file[end + 1..]);
    } else {
      assert file[pos..] == line;
    }
  }

  /** Both readers agree: the tail has as many lines as the counter reports, up to the limit. */
  method TailLengthMatchesCount(file: string, limit: nat, chunk: nat) returns (lines: seq<string>, count: Option<nat>)
    requires chunk >= 1
    ensures count.Some? ==> |lines| == if limit < count.value then limit else count.value
    ensures count.None? ==> exists k :: 0 <= k < |Split(file, '\n')| && |Split(file, '\n')[k]| >= MAX_SCAN_TOKEN
  {
    hide Trim;
    lines := ReadLastLines(file, limit, chunk);
    count := CountNonEmptyLines(file);
  }
}
