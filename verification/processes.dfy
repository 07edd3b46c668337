/** The process-table lookups of the SSH filesystem handler: `proc_kill`, `proc_stdin` and
    `proc_resize_pty` send on one channel of a spawned process. */
module Processes {
  import opened Io

  type ProcessId = nat

  /** A spawned process, as far as the lookups see it: whether each of its channels still has
      a receiver, so that a send on it succeeds. */
  datatype Process = Process(killOpen: bool, stdinOpen: bool, resizeOpen: bool)

  /** The size of a pseudo-terminal. */
  datatype PtySize = PtySize(rows: nat, cols: nat, pixelWidth: nat, pixelHeight: nat)

  datatype Channel = Kill | Stdin | Resize

  predicate Open(p: Process, c: Channel) {
    match c
    case Kill => p.killOpen
    case Stdin => p.stdinOpen
    case Resize => p.resizeOpen
  }

  predicate IsDigits(s: string) {
    forall i :: 0 <= i < |s| ==> '0' <= s[i] <= '9'
  }

  /** The number a string of decimal digits denotes. */
  function DigitsValue(s: string): nat
    requires IsDigits(s)
  {
    if s == [] then 0 else DigitsValue(s[..|s| - 1]) * 10 + (s[|s| - 1] - '0') as nat
  }

  /** A number in decimal, as `format!` writes it: digits without a leading zero that denote
      the number. */
  function Decimal(n: nat): (s: string)
    ensures |s| > 0 && IsDigits(s)
    ensures DigitsValue(s) == n
    ensures s[0] != '0' || s == "0"
  {
    var digit := ['0' + (n % 10) as char];
    if n < 10 then digit
    else
      var high := Decimal(n / 10);
      assert (high + digit)[..|high|] == high;
      high + digit
  }

  /** Different numbers are written differently, so a message names exactly one process. */
  lemma DecimalInjective(a: nat, b: nat)
    requires Decimal(a) == Decimal(b)
    ensures a == b
  {
  }

  /** The text of the `BrokenPipe` error of each lookup. */
  function Refusal(conn: nat, id: ProcessId, c: Channel): string {
    "[Conn " + Decimal(conn) + "] " +
    match c
    case Kill => "Unable to send kill signal to process " + Decimal(id)
    case Stdin => "Unable to send stdin to process " + Decimal(id)
    case Resize => "Unable to resize process " + Decimal(id)
  }

  /** Look up the process and send on the channel: success exactly when the process is in the
      table and the channel is open; otherwise `BrokenPipe`, naming the connection and the id. */
  function Send(table: map<ProcessId, Process>, conn: nat, id: ProcessId, c: Channel): (r: Result<()>)
    ensures r.Ok? <==> id in table && Open(table[id], c)
    ensures r.Err? ==> r.error.kind == BrokenPipe && r.error.message == Refusal(conn, id, c)
  {
    if id in table && Open(table[id], c) then Ok(())
    else Err(IoError(BrokenPipe, Refusal(conn, id, c)))
  }

  /** `proc_kill`: succeeds exactly when the process is known and still takes a kill signal. */
  function ProcKill(table: map<ProcessId, Process>, conn: nat, id: ProcessId): (r: Result<()>)
    ensures r.Ok? <==> id in table && table[id].killOpen
    ensures r.Err? ==> r == Err(IoError(BrokenPipe, Refusal(conn, id, Kill)))
  {
    Send(table, conn, id, Kill)
  }

  /** `proc_stdin`: succeeds exactly when the process is known and its stdin is still open;
      the bytes sent do not affect the outcome. */
  function ProcStdin(table: map<ProcessId, Process>, conn: nat, id: ProcessId, data: seq<bv8>): (r: Result<()>)
    ensures r.Ok? <==> id in table && table[id].stdinOpen
    ensures r.Err? ==> r == Err(IoError(BrokenPipe, Refusal(conn, id, Stdin)))
  {
    Send(table, conn, id, Stdin)
  }

  /** `proc_resize_pty`: succeeds exactly when the process is known and still takes resizes;
      the size sent does not affect the outcome. */
  function ProcResizePty(table: map<ProcessId, Process>, conn: nat, id: ProcessId, size: PtySize): (r: Result<()>)
    ensures r.Ok? <==> id in table && table[id].resizeOpen
    ensures r.Err? ==> r == Err(IoError(BrokenPipe, Refusal(conn, id, Resize)))
  {
    Send(table, conn, id, Resize)
  }

  /** An id missing from the table fails all three lookups with `BrokenPipe`. */
  lemma UnknownProcessBrokenPipe(table: map<ProcessId, Process>, conn: nat, id: ProcessId, data: seq<bv8>, size: PtySize)
    requires id !in table
    ensures ProcKill(table, conn, id).Err? && ProcKill(table, conn, id).error.kind == BrokenPipe
    ensures ProcStdin(table, conn, id, data).Err? && ProcStdin(table, conn, id, data).error.kind == BrokenPipe
    ensures ProcResizePty(table, conn, id, size).Err? && ProcResizePty(table, conn, id, size).error.kind == BrokenPipe
  {
  }

  /** A lookup depends on its own process only: adding, replacing or removing another entry of
      the table does not change its outcome. */
  lemma OtherProcessesIrrelevant(table: map<ProcessId, Process>, other: ProcessId, p: Process,
                                 conn: nat, id: ProcessId, c: Channel)
    requires other != id
    ensures Send(table[other := p], conn, id, c) == Send(table, conn, id, c)
    ensures Send(table - {other}, conn, id, c) == Send(table, conn, id, c)
  {
  }
}
