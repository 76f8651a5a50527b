/**
  Crash recovery of crates/server/src/audit_log.rs: the active segment is cut back to its last
  complete record, found by reading blocks from the end.
 */
module AuditTail {
  import opened Options
  import opened Utf8

  const NEWLINE: Byte := 10
  const BLOCK: nat := 8192

  predicate Terminated(s: seq<Byte>) {
    s == [] || s[|s| - 1] == NEWLINE
  }

  /** The longest prefix that is empty or ends in a newline. */
  ghost predicate LongestTerminated(file: seq<Byte>, n: nat) {
    && n <= |file|
    && Terminated(file[..n])
    && forall k | n < k <= |file| :: !Terminated(file[..k])
  }

  /** The last newline of a block of the file. */
  function LastNewline(file: seq<Byte>, start: nat, end: nat): (last: Option<nat>)
    requires start <= end <= |file|
    ensures last.Some? ==> start <= last.value < end && file[last.value] == NEWLINE
    ensures var rest := if last.Some? then last.value + 1 else start;
            forall k | rest <= k < end :: file[k] != NEWLINE
    decreases end
  {
    if start == end then None
    else if file[end - 1] == NEWLINE then Some(end - 1)
    else LastNewline(file, start, end - 1)
  }

  function TailLength(file: seq<Byte>): (n: nat)
    ensures n <= |file|
  {
    var last := LastNewline(file, 0, |file|);
    if last.Some? then last.value + 1 else 0
  }

  lemma TailIsLongest(file: seq<Byte>)
    ensures LongestTerminated(file, TailLength(file))
  {
    AfterLastNewline(file, TailLength(file));
  }

  // No longer prefix is terminated if no newline follows.
  lemma AfterLastNewline(file: seq<Byte>, n: nat)
    requires n <= |file| && (n > 0 ==> file[n - 1] == NEWLINE)
    requires forall k | n <= k < |file| :: file[k] != NEWLINE
    ensures LongestTerminated(file, n)
  {
    assert forall k | 0 < k <= |file| :: file[..k][k - 1] == file[k - 1];
  }

  method CompleteTailLength(file: seq<Byte>) returns (n: nat)
    ensures LongestTerminated(file, n) && n == TailLength(file)
  {
    TailIsLongest(file);
    n := 0;
    var end: nat := |file|;
    while end > 0
      invariant end <= |file| && n == 0
      invariant forall k | end <= k < |file| :: file[k] != NEWLINE
    {
      var start := if end >= BLOCK then end - BLOCK else 0;
      var last := LastNewline(file, start, end);
      if last.Some? {
        n := last.value + 1;
        break;
      }
      end := start;
    }
    hide LongestTerminated;
    AfterLastNewline(file, n);
    assert n == TailLength(file) by { LongestIsUnique(file, n, TailLength(file)); }
  }

  lemma LongestIsUnique(file: seq<Byte>, n: nat, m: nat)
    requires LongestTerminated(file, n) && LongestTerminated(file, m)
    ensures n == m
  {}

  /** Recovery never drops a complete record, and what was complete already is kept whole. */
  lemma CompleteRecordsSurvive(file: seq<Byte>, tail: seq<Byte>, n: nat)
    requires Terminated(file) && LongestTerminated(file + tail, n)
    ensures n >= |file|
    ensures NEWLINE !in tail ==> n == |file|
  {
    assert (file + tail)[..|file|] == file;
    assert forall k | |file| < k <= |file + tail| ::
        (file + tail)[..k][k - 1] == tail[k - 1 - |file|];
  }
}
