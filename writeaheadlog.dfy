/**
 * WriteAheadLog: operations are appended, one per line, to a log file
 * ("wal.log") and mirrored in an in-memory list; the file can be read back
 * line by line and truncated.
 */
module WriteAheadLogs {
  import opened Wrappers
  import opened Text

  /** The failures of the file calls: reading a missing file, truncating a missing file. */
  datatype IoError = FileNotFound | NoSuchFile

  /** The log file: whether it exists and, if it does, its text. */
  class LogFile {
    var present: bool
    var text: string

    constructor (present: bool, text: string)
      ensures this.present == present && this.text == text
    {
      this.present := present;
      this.text := text;
    }
  }

  class WriteAheadLog {
    const file: LogFile
    var logs: seq<string>
    /** What the file held before this log's own operations were appended. */
    ghost var preexisting: string

    /** The file exists and ends with this log's operations, one line each. */
    ghost predicate Valid()
      reads this, file
    {
      file.present && file.text == preexisting + JoinLines(logs)
    }

    /**
     * An existing file is read back and the recovered lines are dropped, so
     * logs starts empty either way; a missing file is created empty.
     */
    constructor (file: LogFile)
      modifies file
      ensures this.file == file && logs == []
      ensures file.present
      ensures file.text == if old(file.present) then old(file.text) else ""
      ensures Valid() && preexisting == file.text
    {
      this.file := file;
      logs := [];
      preexisting := if file.present then file.text else "";
      new;
      if file.present {
        var _ := RecoverLog();
      } else {
        file.present := true;
        file.text := "";
      }
    }

    /** Appends the operation to logs and the operation plus a newline to the file, creating it if it is missing. */
    method LogOperation(operation: string)
      modifies this, file
      ensures logs == old(logs) + [operation]
      ensures file.present
      ensures file.text == (if old(file.present) then old(file.text) else "") + operation + "\n"
      ensures preexisting == old(preexisting)
      ensures old(Valid()) ==> Valid()
    {
      var before := if file.present then file.text else "";
      if file.present && file.text == preexisting + JoinLines(logs) {
        AppendLine(preexisting, logs, operation);
      }
      logs := logs + [operation];
      file.present := true;
      file.text := before + operation + "\n";
    }

    /** Reads the file line by line; a missing file is an error. Changes nothing. */
    method RecoverLog() returns (r: Result<seq<string>, IoError>)
      ensures r == if file.present then Ok(ReadLines(file.text)) else Err(FileNotFound)
    {
      if !file.present {
        return Err(FileNotFound);
      }
      var recoveryOps := [];
      var rest := file.text;
      while |rest| > 0
        invariant recoveryOps + ReadLines(rest) == ReadLines(file.text)
        decreases |rest|
      {
        recoveryOps := recoveryOps + [rest[..FirstBreak(rest)]];
        rest := AfterFirstLine(rest);
      }
      assert ReadLines(rest) == [];
      assert recoveryOps + [] == recoveryOps;
      return Ok(recoveryOps);
    }

    /** Truncates the existing file and empties logs; a missing file is an error and changes nothing. */
    method ClearLog() returns (r: Option<IoError>)
      modifies this, file
      ensures r == if old(file.present) then None else Some(NoSuchFile)
      ensures old(file.present) ==> file.present && file.text == "" && logs == [] && preexisting == "" && Valid()
      ensures !old(file.present) ==> !file.present && file.text == old(file.text) && logs == old(logs)
    {
      if !file.present {
        return Some(NoSuchFile);
      }
      file.text := "";
      logs := [];
      preexisting := "";
      return None;
    }
  }

  /** Appending a line to a file that ends with the logged lines extends them by that line. */
  lemma AppendLine(preexisting: string, logs: seq<string>, operation: string)
    ensures preexisting + JoinLines(logs + [operation]) == preexisting + JoinLines(logs) + operation + "\n"
  {
    JoinLinesSnoc(logs, operation);
  }

  /**
   * A valid log reads back as the lines that were in the file before it,
   * followed by every logged operation in logging order, provided the earlier
   * content ends with a line break and no operation contains one.
   */
  lemma {:induction false} RecoverLoggedOperations(preexisting: string, logs: seq<string>)
    requires |preexisting| > 0 ==> preexisting[|preexisting| - 1] == '\n'
    requires forall j :: 0 <= j < |logs| ==> NoBreaks(logs[j])
    ensures ReadLines(preexisting + JoinLines(logs)) == ReadLines(preexisting) + logs
  {
    ReadLinesAppend(preexisting, JoinLines(logs));
    ReadJoinedLines(logs);
  }

  /**
   * Earlier content without a final line break swallows the first logged
   * operation: it reads back joined to the last earlier line.
   */
  lemma UnterminatedContentJoinsFirstOperation()
    ensures ReadLines("a" + JoinLines(["b"])) == ["ab"]
  {
    assert JoinLines(["b"]) == "b\n" by { JoinLinesSnoc([], "b"); }
    assert "a" + "b\n" == "ab\n";
    assert FirstBreak("ab\n") == 2 by { FirstBreakAfterLine("ab", '\n', ""); }
    assert AfterFirstLine("ab\n") == "";
    assert ReadLines("") == [];
    assert "ab\n"[..2] == "ab";
  }

  /** Logs each operation in turn. */
  method LogAll(wal: WriteAheadLog, ops: seq<string>)
    requires wal.Valid()
    modifies wal, wal.file
    ensures wal.Valid()
    ensures wal.logs == old(wal.logs) + ops
    ensures wal.preexisting == old(wal.preexisting)
  {
    for i := 0 to |ops|
      invariant wal.Valid()
      invariant wal.preexisting == old(wal.preexisting)
      invariant wal.logs == old(wal.logs) + ops[..i]
    {
      wal.LogOperation(ops[i]);
      assert ops[..i + 1] == ops[..i] + [ops[i]];
    }
    assert ops[..|ops|] == ops;
  }

  /**
   * Logging to a fresh file, then building a second log over the same file:
   * the second log starts with empty logs but recovers every operation.
   */
  method RestartScenario(ops: seq<string>) returns (recovered: Result<seq<string>, IoError>, restartedLogs: seq<string>)
    requires forall j :: 0 <= j < |ops| ==> NoBreaks(ops[j])
    ensures recovered == Ok(ops)
    ensures restartedLogs == []
  {
    var file := new LogFile(false, "");
    var wal := new WriteAheadLog(file);
    LogAll(wal, ops);
    assert wal.logs == ops;
    assert file.text == "" + JoinLines(ops);
    var restarted := new WriteAheadLog(file);
    restartedLogs := restarted.logs;
    recovered := restarted.RecoverLog();
    RecoverLoggedOperations("", ops);
    assert ReadLines("") == [];
  }

  /** After clearLog, recovering yields no operations. */
  method ClearScenario(ops: seq<string>) returns (recovered: Result<seq<string>, IoError>)
    ensures recovered == Ok([])
  {
    var file := new LogFile(false, "");
    var wal := new WriteAheadLog(file);
    LogAll(wal, ops);
    var _ := wal.ClearLog();
    recovered := wal.RecoverLog();
  }
}
