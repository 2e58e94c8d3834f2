/** What `run` in src/runtime/mod.rs does once the audit thread and the
    three receiving threads have been joined: the receivers' buffers, the
    exit code, and the verdict with its optional tracking issue. */
module Runtime {
  import opened Options
  import opened Text
  import opened Report
  import opened Composer

  // ---------------------------------------------------------------------
  // Channels
  // ---------------------------------------------------------------------

  /** The receiving end of a channel whose sender has finished: the messages
      it sent and that have not been received yet, in sending order. */
  class Receiver<T> {
    var queue: seq<T>

    constructor (sent: seq<T>)
      ensures queue == sent
    {
      queue := sent;
    }

    /** `recv()`: the oldest queued message, or `None` once the queue is
        empty, because the sending side has closed. */
    method Recv() returns (r: Option<T>)
      modifies this
      ensures old(queue) == [] ==> r == None && queue == []
      ensures old(queue) != [] ==> r == Some(old(queue)[0]) && queue == old(queue)[1..]
    {
      if queue == [] {
        r := None;
      } else {
        r := Some(queue[0]);
        queue := queue[1..];
      }
    }
  }

  /** The loop of `receive_stdout` and `receive_stderr`: every message is
      appended to the buffer in arrival order until the channel closes. */
  method ReceiveLines(rx: Receiver<string>) returns (buf: seq<string>)
    modifies rx
    ensures buf == old(rx.queue) && rx.queue == []
  {
    buf := [];
    while true
      invariant old(rx.queue) == buf + rx.queue
      decreases |rx.queue|
    {
      var message := rx.Recv();
      if message.None? {
        break;
      }
      buf := buf + [message.value];
    }
  }

  /** `receive_stdout`. */
  method ReceiveStdout(rx: Receiver<string>) returns (buf: seq<string>)
    modifies rx
    ensures buf == old(rx.queue) && rx.queue == []
  {
    buf := ReceiveLines(rx);
  }

  /** `receive_stderr`. */
  method ReceiveStderr(rx: Receiver<string>) returns (buf: seq<string>)
    modifies rx
    ensures buf == old(rx.queue) && rx.queue == []
  {
    buf := ReceiveLines(rx);
  }

  /** `receive_code`: the exit code sent, or -1 when the channel closed
      without one. */
  method ReceiveCode(rx: Receiver<int>) returns (code: int)
    modifies rx
    ensures code == if old(rx.queue) == [] then -1 else old(rx.queue)[0]
    ensures rx.queue == if old(rx.queue) == [] then [] else old(rx.queue)[1..]
  {
    var r := rx.Recv();
    code := r.UnwrapOr(-1);
  }

  // ---------------------------------------------------------------------
  // The tracking issue
  // ---------------------------------------------------------------------

  /** The payload posted to the tracker. */
  datatype Issue = Issue(
    title: string,
    body: Option<string>,
    milestone: Option<nat>,
    labels: Option<seq<string>>,
    assignees: Option<seq<string>>)

  /** The report `create_issue` parses: the stdout lines joined with '\n'. */
  function ReportOf(stdoutBuf: seq<string>): ReportSet
  {
    Collect(Blocks(Join(stdoutBuf, "\n")))
  }

  /** The issue `create_issue` composes for the captured stdout. */
  function IssueFor(stdoutBuf: seq<string>): Issue
  {
    var m := ReportOf(stdoutBuf);
    Issue(Title(m), Some(Body(m)), None, None, None)
  }

  /** What `create_issue` builds before posting: the report's title and body
      and no metadata. */
  method ComposeIssue(stdoutBuf: seq<string>) returns (issue: Issue)
    ensures issue == IssueFor(stdoutBuf)
    ensures issue.title == Join(ReportOf(stdoutBuf).Keys(), ", ")
    ensures issue.body.Some? && issue.milestone.None? && issue.labels.None? && issue.assignees.None?
  {
    var stdout := Join(stdoutBuf, "\n");
    var m := Parse(stdout);
    issue := Issue(Title(m), Some(Body(m)), None, None, None);
    ReportTitle(Blocks(stdout));
  }

  // ---------------------------------------------------------------------
  // The verdict
  // ---------------------------------------------------------------------

  /** What the tracker answered: the created issue's id, or a failure. */
  datatype PublishOutcome = Created(id: nat) | PublishFailed(message: string)

  /** How `run` ends. */
  datatype RunResult =
    | Passed          // Ok(())
    | RustSecFound    // Err(AuditCheckError::RustSec)
    | RuntimeFailed   // the async runtime could not be created
    | AuditFailed     // the audit thread returned an error or panicked

  /** Lines 64-80 of `run`: exit code 0 passes; any other code fails with the
      RustSec error, after filing an issue when `createIssue` is set. The
      publish outcome is only logged. `runtimeStarts` says whether creating
      the async runtime succeeds; `publish` stands for the HTTP exchange. */
  method Conclude(stdoutBuf: seq<string>, stderrBuf: seq<string>, code: int, createIssue: bool,
                  runtimeStarts: bool, publish: Issue -> PublishOutcome)
    returns (result: RunResult, attempt: Option<(Issue, PublishOutcome)>)
    ensures result == Passed <==> code == 0
    ensures attempt.Some? <==> code != 0 && createIssue && runtimeStarts
    ensures code != 0 && !(createIssue && !runtimeStarts) ==> result == RustSecFound
    ensures code != 0 && createIssue && !runtimeStarts ==> result == RuntimeFailed
    ensures attempt.Some? ==> attempt.value.0 == IssueFor(stdoutBuf) &&
                              attempt.value.1 == publish(attempt.value.0)
  {
    attempt := None;
    if code == 0 {
      result := Passed;
    } else if createIssue {
      if !runtimeStarts {
        result := RuntimeFailed;
        return;
      }
      var issue := ComposeIssue(stdoutBuf);
      var outcome := publish(issue);
      attempt := Some((issue, outcome));
      result := RustSecFound;
    } else {
      result := RustSecFound;
    }
  }

  /** Lines 60-80 of `run` once every thread has finished. `auditOk` is
      what joining the audit thread gives (line 60): false when the thread
      panicked or `audit` returned an error, and then `run` returns that
      error before it looks at any receiver. `audit` returns `Ok` only
      after `handle_status` has sent the exit code (src/audit.rs:43-52 and
      75-79), so a successful audit has queued a code. */
  method Finish(auditOk: bool, stdoutRx: Receiver<string>, stderrRx: Receiver<string>,
                codeRx: Receiver<int>, createIssue: bool, runtimeStarts: bool,
                publish: Issue -> PublishOutcome)
    returns (result: RunResult, attempt: Option<(Issue, PublishOutcome)>)
    requires stdoutRx != stderrRx
    requires auditOk ==> codeRx.queue != []
    modifies stdoutRx, stderrRx, codeRx
    ensures !auditOk ==> result == AuditFailed && attempt.None?
    ensures !auditOk ==> stdoutRx.queue == old(stdoutRx.queue) &&
                         stderrRx.queue == old(stderrRx.queue) && codeRx.queue == old(codeRx.queue)
    ensures result == Passed <==> auditOk && old(codeRx.queue)[0] == 0
    ensures auditOk && old(codeRx.queue)[0] != 0 && !(createIssue && !runtimeStarts) ==>
              result == RustSecFound
    ensures auditOk && old(codeRx.queue)[0] != 0 && createIssue && !runtimeStarts ==>
              result == RuntimeFailed
    ensures attempt.Some? <==> auditOk && old(codeRx.queue)[0] != 0 && createIssue && runtimeStarts
    ensures attempt.Some? ==> attempt.value.0 == IssueFor(old(stdoutRx.queue)) &&
                              attempt.value.1 == publish(attempt.value.0)
    ensures auditOk ==> stdoutRx.queue == [] && stderrRx.queue == [] &&
                        codeRx.queue == old(codeRx.queue)[1..]
  {
    if !auditOk {
      return AuditFailed, None;
    }
    var stdoutBuf := ReceiveStdout(stdoutRx);
    var stderrBuf := ReceiveStderr(stderrRx);
    var code := ReceiveCode(codeRx);
    result, attempt := Conclude(stdoutBuf, stderrBuf, code, createIssue, runtimeStarts, publish);
  }
}
