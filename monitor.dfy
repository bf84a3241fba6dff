/** `monitor_ffmpeg`: read ffmpeg's standard error line by line until it
    closes or until a line reports that the stream is gone (HTTP 404), and
    in that case kill ffmpeg. The process is an object whose read position
    and kill count the monitor changes. */
module Monitor {
  import opened Text

  const NOT_FOUND := "HTTP error 404 Not Found"

  /** The ffmpeg child as the monitor sees it. `stderr` is every line the
      process writes to standard error, each with its line terminator and
      so never empty; `position` counts the lines read; `kills` counts the
      kill requests it has received. */
  class FfmpegProcess {
    const stderr: seq<string>
    var position: nat
    var kills: nat

    ghost predicate Valid()
      reads this
    {
      position <= |stderr| && forall i :: 0 <= i < |stderr| ==> stderr[i] != ""
    }

    constructor (lines: seq<string>)
      requires forall i :: 0 <= i < |lines| ==> lines[i] != ""
      ensures Valid() && stderr == lines && position == 0 && kills == 0
    {
      stderr := lines;
      position := 0;
      kills := 0;
    }

    /** `process.stderr.readline()`: the next line, or the empty string
        once the stream has ended. */
    method ReadLine() returns (line: string)
      requires Valid()
      modifies this`position
      ensures Valid()
      ensures old(position) < |stderr| ==> line == stderr[old(position)] && position == old(position) + 1
      ensures old(position) == |stderr| ==> line == "" && position == old(position)
    {
      if position < |stderr| {
        line := stderr[position];
        position := position + 1;
      } else {
        line := "";
      }
    }

    /** `process.kill()`. */
    method Kill()
      modifies this`kills
      ensures kills == old(kills) + 1
    {
      kills := kills + 1;
    }
  }

  /** How a watch of a sequence of lines ends: how many lines were read
      before stopping, and whether the process was killed. */
  datatype Verdict = Verdict(consumed: nat, killed: bool)

  /** The stopping rule: stop after the first line that reports the 404,
      killing the process, or at the end of the lines without killing it. */
  function Watch(lines: seq<string>): (v: Verdict)
    ensures v.consumed <= |lines|
    ensures v.killed ==> v.consumed > 0 && Contains(lines[v.consumed - 1], NOT_FOUND)
    ensures !v.killed ==> v.consumed == |lines|
    ensures forall j :: 0 <= j < v.consumed - (if v.killed then 1 else 0) ==>
              !Contains(lines[j], NOT_FOUND)
  {
    if lines == [] then Verdict(0, false)
    else if Contains(lines[0], NOT_FOUND) then Verdict(1, true)
    else
      var v := Watch(lines[1..]);
      Verdict(v.consumed + 1, v.killed)
  }

  /** A 404 line preceded only by other lines is where the watch stops, and
      it kills. */
  lemma {:induction false} WatchStopsAtFirst404(lines: seq<string>, k: nat)
    requires k < |lines| && Contains(lines[k], NOT_FOUND)
    requires forall j :: 0 <= j < k ==> !Contains(lines[j], NOT_FOUND)
    ensures Watch(lines) == Verdict(k + 1, true)
  {
    if k > 0 {
      assert lines[1..][k - 1] == lines[k];
      assert forall j :: 0 <= j < k - 1 ==> lines[1..][j] == lines[j + 1];
      WatchStopsAtFirst404(lines[1..], k - 1);
    }
  }

  /** A kill happens exactly when some line reports the 404. */
  lemma {:induction false} KilledIff404(lines: seq<string>)
    ensures Watch(lines).killed <==> exists i :: 0 <= i < |lines| && Contains(lines[i], NOT_FOUND)
  {
    if lines != [] && !Contains(lines[0], NOT_FOUND) {
      KilledIff404(lines[1..]);
      assert forall i :: 1 <= i < |lines| ==> lines[i] == lines[1..][i - 1];
    }
  }

  /** Lines after the 404 line are never read: whatever follows it, the
      watch ends the same way. */
  lemma {:induction false} LaterLinesUnread(lines: seq<string>, later: seq<string>)
    requires Watch(lines).killed
    ensures Watch(lines[..Watch(lines).consumed] + later) == Watch(lines)
  {
    var v := Watch(lines);
    var s := lines[..v.consumed] + later;
    assert s[0] == lines[0];
    if !Contains(lines[0], NOT_FOUND) {
      LaterLinesUnread(lines[1..], later);
      assert s[1..] == lines[1..][..Watch(lines[1..]).consumed] + later;
    }
  }

  /** `monitor_ffmpeg`: the `while True` loop over `readline`. The process
      ends up read exactly as far as the stopping rule says, and killed once
      if a 404 line was read, otherwise not at all. */
  method MonitorFfmpeg(process: FfmpegProcess)
    requires process.Valid()
    modifies process
    ensures process.Valid()
    ensures var v := Watch(process.stderr[old(process.position)..]);
            && process.position == old(process.position) + v.consumed
            && process.kills == old(process.kills) + (if v.killed then 1 else 0)
  {
    ghost var start := process.position;
    ghost var lines := process.stderr[start..];
    while true
      invariant process.Valid() && start <= process.position
      invariant process.kills == old(process.kills)
      invariant forall j :: start <= j < process.position ==> !Contains(process.stderr[j], NOT_FOUND)
      decreases |process.stderr| - process.position
    {
      var line := process.ReadLine();
      if line == "" {
        assert forall j :: 0 <= j < |lines| ==> lines[j] == process.stderr[start + j];
        KilledIff404(lines);
        break;
      }
      if Contains(line, NOT_FOUND) {
        process.Kill();
        assert forall j :: 0 <= j < process.position - 1 - start ==> lines[j] == process.stderr[start + j];
        WatchStopsAtFirst404(lines, process.position - 1 - start);
        break;
      }
    }
  }
}
