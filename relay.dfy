/**
 * The relay at the heart of `exec_request`: it forwards the output of
 * `git-upload-pack` to the channel one byte per data frame and stops after
 * the byte that completes four `'0'` characters at the start of a line.
 * This is a heuristic for the flush-pkt `0000` of Git's pkt-line framing.
 * The four-hex-digit length headers are not parsed. So a `0000` right after
 * a newline inside a pkt-line's payload stops the relay in the middle of
 * that pkt-line, and a flush-pkt that does not begin a line (the pkt-line
 * before it has no trailing newline) is missed.
 */
module Relay {
  import opened Bytes
  import opened Wrappers
  import opened Transport

  /** Position `j` of `out` begins a line: the stream start or just after a newline. */
  predicate LineStart(out: seq<u8>, j: nat) {
    j <= |out| && (j == 0 || out[j - 1] == NEWLINE)
  }

  /** Four `'0'` bytes begin a line at position `j` of `out`. */
  predicate FlushAt(out: seq<u8>, j: nat) {
    j + 4 <= |out| && LineStart(out, j) &&
    out[j] == ZERO && out[j + 1] == ZERO && out[j + 2] == ZERO && out[j + 3] == ZERO
  }

  /** End of the first line-start `0000` at or after position `j`, by a plain search. */
  function FirstFlushFrom(out: seq<u8>, j: nat): Option<nat>
    decreases |out| - j
  {
    if j + 4 > |out| then None
    else if FlushAt(out, j) then Some(j + 4)
    else FirstFlushFrom(out, j + 1)
  }

  /** End of the first line of `out` that starts with `0000`, if any. */
  function FlushEnd(out: seq<u8>): Option<nat> {
    FirstFlushFrom(out, 0)
  }

  /** How many bytes of `out` the relay forwards. */
  function StopPoint(out: seq<u8>): (n: nat)
    ensures n <= |out|
  {
    FirstFlushFromIsFirst(out, 0);
    match FlushEnd(out)
    case Some(e) => e
    case None => |out|
  }

  lemma {:induction false} FirstFlushFromIsFirst(out: seq<u8>, j: nat)
    ensures match FirstFlushFrom(out, j)
      case Some(e) =>
        j + 4 <= e <= |out| && FlushAt(out, e - 4) &&
        forall k: nat :: j <= k < e - 4 ==> !FlushAt(out, k)
      case None =>
        forall k: nat :: j <= k ==> !FlushAt(out, k)
    decreases |out| - j
  {
    if j + 4 <= |out| && !FlushAt(out, j) {
      FirstFlushFromIsFirst(out, j + 1);
    }
  }

  /**
   * The stop rule: FlushEnd is the end of the first line that starts with
   * `0000`, and None exactly when no line does; StopPoint never exceeds the
   * output.
   */
  lemma FlushEndIsFirst(out: seq<u8>)
    ensures match FlushEnd(out)
      case Some(e) =>
        4 <= e && FlushAt(out, e - 4) && forall k: nat :: k < e - 4 ==> !FlushAt(out, k)
      case None =>
        forall k: nat :: !FlushAt(out, k)
  {
    FirstFlushFromIsFirst(out, 0);
  }

  /** A line-start `0000` ending at `e` with none before it is the one FlushEnd finds. */
  lemma FlushEndUnique(out: seq<u8>, e: nat)
    requires 4 <= e && FlushAt(out, e - 4)
    requires forall k: nat :: k < e - 4 ==> !FlushAt(out, k)
    ensures FlushEnd(out) == Some(e)
  {
    FlushEndIsFirst(out);
  }

  /**
   * The loop of `exec_request`: scan `stdout` with the two variables of the
   * source, send every byte as its own data frame, and break right after the
   * byte that makes `leading_zeros` reach 4. `flushed` says whether the loop
   * broke (true) or ran to the end of the output (false).
   */
  method Relay(channel: ChannelId, stdout: seq<u8>, session: Session) returns (s: Session, flushed: bool)
    ensures flushed == FlushEnd(stdout).Some?
    ensures s.frames == session.frames + ByteFrames(channel, stdout[..StopPoint(stdout)])
  {
    var leadingZeros: u8 := 0;
    var encounteredNonZero := false;
    s, flushed := session, false;
    for i := 0 to |stdout|
      // the counter never overflows: it is at most 3 between bytes
      invariant leadingZeros < 4
      invariant s.frames == session.frames + ByteFrames(channel, stdout[..i])
      // no line-start `0000` has been completed yet
      invariant forall j: nat :: FlushAt(stdout, j) ==> i < j + 4
      // with no other byte on the line yet, leading_zeros counts the `0`s since the line start
      invariant !encounteredNonZero ==>
        leadingZeros as int <= i && LineStart(stdout, i - leadingZeros as int) &&
        forall k :: i - leadingZeros as int <= k < i ==> stdout[k] == ZERO
      // a line-start `0000` under way is tracked by the counter
      invariant forall j: nat :: j <= i < j + 4 && FlushAt(stdout, j) ==>
        !encounteredNonZero && leadingZeros as int == i - j
    {
      var byte := stdout[i];
      if byte == NEWLINE {
        leadingZeros := 0;
        encounteredNonZero := false;
      } else if byte == ZERO && !encounteredNonZero {
        leadingZeros := leadingZeros + 1;
      } else {
        encounteredNonZero := true;
      }
      assert stdout[..i + 1] == stdout[..i] + [byte];
      s := s.Data(channel, [byte]);
      if leadingZeros == 4 {
        FlushEndUnique(stdout, i + 1);
        flushed := true;
        break;
      }
    }
    if !flushed {
      FlushEndIsFirst(stdout);
    }
  }

  /** The frames the relay writes read back as a prefix of the output, unchanged and in order. */
  lemma RelayedIsPrefix(channel: ChannelId, stdout: seq<u8>)
    ensures Payload(ByteFrames(channel, stdout[..StopPoint(stdout)])) == stdout[..StopPoint(stdout)]
    ensures StopPoint(stdout) == |stdout| <==> FlushEnd(stdout).None? || FlushEnd(stdout) == Some(|stdout|)
  {
    FlushEndIsFirst(stdout);
    ByteFramesPayload(channel, stdout[..StopPoint(stdout)]);
  }

  /** Worked examples of the stop rule. */
  lemma StopExamples()
    ensures StopPoint(Ascii("0000")) == 4
    ensures StopPoint(Ascii("x\n0000")) == 6
    ensures StopPoint(Ascii("0000\n0000")) == 4
    ensures FlushEnd(Ascii("a0000")) == None
    ensures FlushEnd(Ascii("0008")) == None
    ensures FlushEnd(Ascii("000")) == None
  {
  }

  /** Where the line-based rule and pkt-line framing disagree. */
  lemma PktLineExamples()
    // a payload never begins a line, so a `0000` at its start does not stop the relay
    ensures FlushEnd(Ascii("00090000\n")) == None
    // a `0000` after a newline inside a payload stops it one byte short of the end of that 12-byte pkt-line
    ensures StopPoint(Ascii("000cab\n0000\n")) == 11
    // a flush-pkt after a pkt-line without a trailing newline is missed
    ensures FlushEnd(Ascii("0006ab0000")) == None
  {
  }
}
