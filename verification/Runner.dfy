/**
 Applying schema files under a ledger, over any number of starts with any calls failing.
 */
module Runner {
  import opened Prelude
  import opened Schema
  import Lex

  /** The store calls of one start. */
  datatype Call =
    | Ensure
    | CountRows
    | Present
    | Adopt
    | Applied(file: string)
    | Exec(file: string)
    | Record(file: string)

  /** What persists between starts: the ledger rows, every batch executed so far in order,
      and whether `seg.tb_user` exists. */
  datatype State = State(ledger: set<string>, executed: seq<string>, userTable: bool)

  /** What one start returns: the names it applied, or an error after having applied them. */
  datatype Report = Report(applied: seq<string>, completed: bool)

  /** The loop over the pending files. */
  function ApplyPending(s: State, files: seq<Migration>, creates: string -> bool, faults: set<Call>): (State, Report)
    decreases |files|
  {
    if files == [] then (s, Report([], true))
    else
      var f, rest := files[0], files[1..];
      if Applied(f.name) in faults then (s, Report([], false))
      else if f.name in s.ledger then ApplyPending(s, rest, creates, faults)
      else if Exec(f.name) in faults then (s, Report([], false))
      else
        var ran := s.(executed := s.executed + [f.name], userTable := s.userTable || creates(f.sql));
        if Record(f.name) in faults then (ran, Report([], false))
        else
          var (s', r) := ApplyPending(ran.(ledger := s.ledger + {f.name}), rest, creates, faults);
          (s', Report([f.name] + r.applied, r.completed))
  }

  /** One start of the service. */
  function Start(s: State, files: seq<Migration>, creates: string -> bool, faults: set<Call>): (State, Report) {
    if Ensure in faults then (s, Report([], false))
    else if files == [] then (s, Report([], true))
    else if CountRows in faults then (s, Report([], false))
    else if s.ledger != {} then ApplyPending(s, files, creates, faults)
    else if Present in faults then (s, Report([], false))
    else if !s.userTable then ApplyPending(s, files, creates, faults)
    else if Adopt in faults then (s, Report([], false))
    else (s.(ledger := Lex.Elements(Names(files))), Report([], true))
  }

  /** The outcome of a start that had applied `names` when the rest of it began. */
  function After(names: seq<string>, rest: (State, Report)): (State, Report) {
    (rest.0, Report(names + rest.1.applied, rest.1.completed))
  }

  lemma AfterNone(rest: (State, Report))
    ensures After([], rest) == rest
  {
    assert [] + rest.1.applied == rest.1.applied;
  }

  lemma AfterMore(names: seq<string>, name: string, rest: (State, Report))
    ensures After(names, (rest.0, Report([name] + rest.1.applied, rest.1.completed))) == After(names + [name], rest)
  {
    assert names + ([name] + rest.1.applied) == names + [name] + rest.1.applied;
  }

  class SchemaRunner {
    const creates: string -> bool
    var ledger: set<string>
    var executed: seq<string>
    var userTable: bool

    ghost function View(): State
      reads this
    {
      State(ledger, executed, userTable)
    }

    constructor (creates: string -> bool, userTable: bool)
      ensures View() == State({}, [], userTable) && this.creates == creates
    {
      this.creates := creates;
      this.ledger := {};
      this.executed := [];
      this.userTable := userTable;
    }

    /** Baselines a database whose schema is older than the ledger; returns how many files it
        adopted. */
    method AdoptExisting(files: seq<Migration>, faults: set<Call>) returns (r: Result<nat, Call>)
      modifies this`ledger
      ensures r.Err? ==> ledger == old(ledger)
      ensures r == if files == [] then Ok(0)
                   else if CountRows in faults then Err(CountRows)
                   else if old(ledger) != {} then Ok(0)
                   else if Present in faults then Err(Present)
                   else if !userTable then Ok(0)
                   else if Adopt in faults then Err(Adopt) else Ok(|files|)
      ensures r.Ok? ==> ledger == if r.value == 0 then old(ledger) else Lex.Elements(Names(files))
    {
      if |files| == 0 {
        return Ok(0);
      }
      if CountRows in faults {
        return Err(CountRows);
      }
      if |ledger| > 0 {
        return Ok(0);
      }
      if Present in faults {
        return Err(Present);
      }
      if !userTable {
        return Ok(0);
      }
      var names: seq<string> := [];
      for i := 0 to |files|
        invariant names == Names(files)[..i]
      {
        names := names + [files[i].name];
      }
      assert names == Names(files);
      if Adopt in faults {
        return Err(Adopt);
      }
      ledger := ledger + Lex.Elements(names);
      return Ok(|names|);
    }

    method Run(files: seq<Migration>, faults: set<Call>) returns (r: Report)
      modifies this
      ensures (View(), r) == Start(old(View()), files, creates, faults)
    {
      if Ensure in faults {
        return Report([], false);
      }
      var adopted := AdoptExisting(files, faults);
      if adopted.Err? {
        return Report([], false);
      }
      if adopted.value > 0 {
        return Report([], true);
      }
      ghost var start := View();
      var applied := [];
      var i := 0;
      assert files[0..] == files;
      AfterNone(ApplyPending(start, files, creates, faults));
      while i < |files|
        invariant 0 <= i <= |files|
        invariant ApplyPending(start, files, creates, faults) ==
                    After(applied, ApplyPending(View(), files[i..], creates, faults))
      {
        var f := files[i];
        assert files[i..][0] == f && files[i..][1..] == files[i + 1..];
        assert applied + [] == applied;
        if Applied(f.name) in faults {
          return Report(applied, false);
        }
        if f.name !in ledger {
          if Exec(f.name) in faults {
            return Report(applied, false);
          }
          executed := executed + [f.name];
          userTable := userTable || creates(f.sql);
          if Record(f.name) in faults {
            return Report(applied, false);
          }
          ledger := ledger + {f.name};
          AfterMore(applied, f.name, ApplyPending(View(), files[i + 1..], creates, faults));
          applied := applied + [f.name];
        }
        i := i + 1;
      }
      assert applied + [] == applied;
      return Report(applied, true);
    }
  }

  // ---------------------------------------------------------------------------
  // Laws over any number of starts.
  // ---------------------------------------------------------------------------

  /** One start: the directory it finds, loaded, and the calls that fail. */
  datatype Boot = Boot(files: seq<Migration>, faults: set<Call>)

  /** Any number of starts, each with its own directory and its own faults. */
  function Starts(s: State, creates: string -> bool, runs: seq<Boot>): State {
    if runs == [] then s
    else Start(Starts(s, creates, runs[..|runs| - 1]), runs[|runs| - 1].files, creates, runs[|runs| - 1].faults).0
  }

  /** Releases only add files, and they sort after the older ones. */
  ghost predicate Growing(runs: seq<Boot>) {
    && (forall i | 0 <= i < |runs| :: Lex.Distinct(Names(runs[i].files)))
    && (forall i, j | 0 <= i < j < |runs| :: runs[i].files <= runs[j].files)
  }

  /** The loop executes a batch whose record is then lost: it reaches a pending file, the batch
      succeeds, and recording it fails. */
  predicate LosesRecord(files: seq<Migration>, ledger: set<string>, faults: set<Call>) {
    if files == [] then false
    else
      var f, rest := files[0], files[1..];
      && Applied(f.name) !in faults
      && if f.name in ledger then LosesRecord(rest, ledger, faults)
         else
           && Exec(f.name) !in faults
           && (Record(f.name) in faults || LosesRecord(rest, ledger + {f.name}, faults))
  }

  /** The same of a whole start: it gets to the loop, and the loop loses a record. */
  predicate StartLosesRecord(s: State, files: seq<Migration>, faults: set<Call>) {
    && files != [] && Ensure !in faults && CountRows !in faults
    && (s.ledger != {} || (Present !in faults && !s.userTable))
    && LosesRecord(files, s.ledger, faults)
  }

  /** Exactly the first `k` files were executed, in order, and exactly they are recorded. */
  ghost predicate AppliedUpTo(s: State, names: seq<string>, k: nat) {
    k <= |names| && s.executed == names[..k] && s.ledger == Lex.Elements(names[..k])
  }

  /** One more batch was executed than recorded. */
  ghost predicate LostAt(s: State, names: seq<string>, k: nat) {
    k < |names| && s.executed == names[..k + 1] && s.ledger == Lex.Elements(names[..k])
  }

  /** Ledger and executed batches are in step, and `tb_user` was not there before them. */
  ghost predicate InStep(s: State, names: seq<string>) {
    exists k: nat :: AppliedUpTo(s, names, k) && (k == 0 ==> !s.userTable)
  }

  lemma LostIsNotInStep(s: State, names: seq<string>, k: nat)
    requires Lex.Distinct(names) && LostAt(s, names, k)
    ensures !InStep(s, names)
  {
    forall j: nat ensures !AppliedUpTo(s, names, j) {
      if AppliedUpTo(s, names, j) {
        NotRecorded(s, names, k, j);
      }
    }
  }

  lemma NotRecorded(s: State, names: seq<string>, k: nat, j: nat)
    requires Lex.Distinct(names) && LostAt(s, names, k)
    ensures !AppliedUpTo(s, names, j)
  {
    assert |s.executed| == k + 1;
    assert AppliedUpTo(s, names, j) ==> |s.executed| == j;
    if j == k + 1 {
      assert names[..j][k] == names[k] && names[k] !in names[..k];
      assert names[k] in Lex.Elements(names[..j]) && names[k] !in s.ledger;
    }
  }

  lemma NextFile(s: State, names: seq<string>, k: nat, userTable: bool)
    requires Lex.Distinct(names) && AppliedUpTo(s, names, k) && k < |names|
    ensures names[k] !in s.ledger
    ensures AppliedUpTo(State(s.ledger + {names[k]}, s.executed + [names[k]], userTable), names, k + 1)
    ensures LostAt(State(s.ledger, s.executed + [names[k]], userTable), names, k)
  {
    assert names[..k + 1] == names[..k] + [names[k]];
    Lex.DistinctSnoc(names[..k], names[k]);
  }

  /** The loop passes over recorded files, unless looking one up fails. */
  lemma {:induction false} RecordedArePassed(s: State, files: seq<Migration>, i: nat, k: nat,
                                             creates: string -> bool, faults: set<Call>)
    requires i <= k <= |files| && Lex.Elements(Names(files)[..k]) <= s.ledger
    ensures || (ApplyPending(s, files[i..], creates, faults) == ApplyPending(s, files[k..], creates, faults)
                && LosesRecord(files[i..], s.ledger, faults) == LosesRecord(files[k..], s.ledger, faults))
            || (ApplyPending(s, files[i..], creates, faults) == (s, Report([], false))
                && !LosesRecord(files[i..], s.ledger, faults))
    decreases k - i
  {
    if i < k {
      assert files[i..][0] == files[i] && files[i..][1..] == files[i + 1..];
      assert Names(files)[..k][i] == files[i].name;
      RecordedArePassed(s, files, i + 1, k, creates, faults);
    }
  }

  /** The loop from file `k` on, when exactly the files before it are applied. */
  lemma {:induction false} PendingFrom(s: State, files: seq<Migration>, k: nat, creates: string -> bool,
                                       faults: set<Call>)
    returns (k': nat)
    requires Lex.Distinct(Names(files)) && AppliedUpTo(s, Names(files), k)
    ensures var (s', r) := ApplyPending(s, files[k..], creates, faults);
            && k <= k' <= |files| && r.applied == Names(files)[k..k'] && (r.completed ==> k' == |files|)
            && if LosesRecord(files[k..], s.ledger, faults) then LostAt(s', Names(files), k')
               else AppliedUpTo(s', Names(files), k') && (k' == k ==> s' == s)
    decreases |files| - k
  {
    k' := k;
    if k < |files| {
      var f, names := files[k], Names(files);
      assert files[k..][0] == f && files[k..][1..] == files[k + 1..];
      NextFile(s, names, k, s.userTable || creates(f.sql));
      if Applied(f.name) !in faults && Exec(f.name) !in faults && Record(f.name) !in faults {
        var s' := State(s.ledger + {f.name}, s.executed + [f.name], s.userTable || creates(f.sql));
        k' := PendingFrom(s', files, k + 1, creates, faults);
        assert [f.name] + names[k + 1..k'] == names[k..k'];
      }
    }
  }

  /** The whole loop, when the first `k` files are applied and none after them. */
  lemma PendingFromPrefix(s: State, files: seq<Migration>, k: nat, creates: string -> bool, faults: set<Call>)
    returns (k': nat)
    requires Lex.Distinct(Names(files)) && AppliedUpTo(s, Names(files), k)
    ensures var (s', r) := ApplyPending(s, files, creates, faults);
            && k <= k' <= |files| && r.applied == Names(files)[k..k'] && (r.completed ==> k' == |files|)
            && if LosesRecord(files, s.ledger, faults) then LostAt(s', Names(files), k')
               else AppliedUpTo(s', Names(files), k') && (k' == k ==> s' == s)
  {
    assert files[0..] == files;
    RecordedArePassed(s, files, 0, k, creates, faults);
    k' := PendingFrom(s, files, k, creates, faults);
    if ApplyPending(s, files, creates, faults) != ApplyPending(s, files[k..], creates, faults) {
      k' := k;
    }
  }

  /** A call the loop makes fails. */
  predicate PendingFails(files: seq<Migration>, ledger: set<string>, faults: set<Call>) {
    files != [] &&
    var (f, rest) := (files[0], files[1..]);
    || Applied(f.name) in faults
    || (f.name in ledger && PendingFails(rest, ledger, faults))
    || (f.name !in ledger
        && (Exec(f.name) in faults || Record(f.name) in faults || PendingFails(rest, ledger + {f.name}, faults)))
  }

  /** A call the start makes fails. */
  predicate StartFails(s: State, files: seq<Migration>, faults: set<Call>) {
    || Ensure in faults
    || (files != [] && CountRows in faults)
    || (files != [] && s.ledger != {} && PendingFails(files, s.ledger, faults))
    || (files != [] && s.ledger == {} && Present in faults)
    || (files != [] && s.ledger == {} && s.userTable && Adopt in faults)
    || (files != [] && s.ledger == {} && !s.userTable && PendingFails(files, s.ledger, faults))
  }

  lemma {:induction false} PendingCompletesIff(s: State, files: seq<Migration>, creates: string -> bool,
                                               faults: set<Call>)
    ensures ApplyPending(s, files, creates, faults).1.completed <==> !PendingFails(files, s.ledger, faults)
    decreases |files|
  {
    if files != [] {
      var f := files[0];
      PendingCompletesIff(s, files[1..], creates, faults);
      var s' := State(s.ledger + {f.name}, s.executed + [f.name], s.userTable || creates(f.sql));
      PendingCompletesIff(s', files[1..], creates, faults);
    }
  }

  /** A start reports an error iff a call it makes fails. */
  lemma CompletesIff(s: State, files: seq<Migration>, creates: string -> bool, faults: set<Call>)
    ensures Start(s, files, creates, faults).1.completed <==> !StartFails(s, files, faults)
  {
    PendingCompletesIff(s, files, creates, faults);
  }

  lemma {:induction false} CompletesWithoutFaults(s: State, files: seq<Migration>, creates: string -> bool)
    ensures ApplyPending(s, files, creates, {}).1.completed
    decreases |files|
  {
    if files != [] {
      var f := files[0];
      CompletesWithoutFaults(s, files[1..], creates);
      CompletesWithoutFaults(State(s.ledger + {f.name}, s.executed + [f.name], s.userTable || creates(f.sql)),
        files[1..], creates);
    }
  }

  /** One start of a database in step: it goes on where the last one stopped, reports exactly
      what it applied and recorded, and leaves the database in step iff no record is lost. */
  lemma StartFromPrefix(s: State, files: seq<Migration>, k: nat, creates: string -> bool, faults: set<Call>)
    returns (k': nat)
    requires Lex.Distinct(Names(files)) && AppliedUpTo(s, Names(files), k) && (k == 0 ==> !s.userTable)
    ensures var (s', r) := Start(s, files, creates, faults);
            && k <= k' <= |files| && r.applied == Names(files)[k..k']
            && (r.completed ==> k' == |files|) && (faults == {} ==> r.completed)
            && if StartLosesRecord(s, files, faults) then LostAt(s', Names(files), k')
               else AppliedUpTo(s', Names(files), k') && (k' == 0 ==> !s'.userTable)
  {
    assert files[0..] == files;
    if k > 0 {
      assert Names(files)[..k][0] in s.ledger;
    }
    CompletesWithoutFaults(s, files, creates);
    k' := k;
    if Ensure !in faults && files != [] && CountRows !in faults && (s.ledger != {} || Present !in faults) {
      k' := PendingFromPrefix(s, files, k, creates, faults);
    }
  }

  lemma StartStaysInStep(s: State, files: seq<Migration>, creates: string -> bool, faults: set<Call>)
    requires Lex.Distinct(Names(files)) && InStep(s, Names(files))
    ensures InStep(Start(s, files, creates, faults).0, Names(files)) <==> !StartLosesRecord(s, files, faults)
  {
    var k: nat :| AppliedUpTo(s, Names(files), k) && (k == 0 ==> !s.userTable);
    var k' := StartFromPrefix(s, files, k, creates, faults);
    if StartLosesRecord(s, files, faults) {
      LostIsNotInStep(Start(s, files, creates, faults).0, Names(files), k');
    }
  }

  const FRESH := State({}, [], false)

  /** The database is in step with its directory after every start of the series. */
  ghost predicate AlwaysInStep(creates: string -> bool, runs: seq<Boot>) {
    runs == [] ||
    (InStep(Starts(FRESH, creates, runs), Names(runs[|runs| - 1].files)) && AlwaysInStep(creates, runs[..|runs| - 1]))
  }

  /** No start of the series loses a record. */
  predicate NeverLosesRecord(creates: string -> bool, runs: seq<Boot>) {
    runs == [] ||
    var (before, last) := (runs[..|runs| - 1], runs[|runs| - 1]);
    && NeverLosesRecord(creates, before)
    && !StartLosesRecord(Starts(FRESH, creates, before), last.files, last.faults)
  }

  /** A database in step with a directory is in step with one that has more files. */
  lemma InStepGrows(s: State, names: seq<string>, more: seq<string>)
    requires InStep(s, names) && names <= more
    ensures InStep(s, more)
  {
    var k: nat :| AppliedUpTo(s, names, k) && (k == 0 ==> !s.userTable);
    assert more[..k] == names[..k];
    assert AppliedUpTo(s, more, k);
  }

  lemma NamesGrow(files: seq<Migration>, more: seq<Migration>)
    requires files <= more
    ensures Names(files) <= Names(more)
  {
  }

  /** From a fresh database, over any number of starts with any calls failing and a directory
      that may grow in between: after every start a prefix of the files in lexical order has been
      executed, each once, and the ledger holds exactly that prefix, iff no start lost the record
      of a batch it had executed. */
  lemma {:induction false} FreshDatabaseResumes(creates: string -> bool, runs: seq<Boot>)
    requires Growing(runs)
    ensures AlwaysInStep(creates, runs) <==> NeverLosesRecord(creates, runs)
  {
    if runs != [] {
      var before, last := runs[..|runs| - 1], runs[|runs| - 1];
      var s := Starts(FRESH, creates, before);
      FreshDatabaseResumes(creates, before);
      if AlwaysInStep(creates, before) {
        if before == [] {
          assert AppliedUpTo(FRESH, Names(last.files), 0);
        } else {
          NamesGrow(before[|before| - 1].files, last.files);
          InStepGrows(s, Names(before[|before| - 1].files), Names(last.files));
        }
        StartStaysInStep(s, last.files, creates, last.faults);
      }
    }
  }

  /** Once every file of a directory is recorded, no start that finds no other file executes or
      records anything, whatever fails. */
  lemma {:induction false} NothingAfterCompletion(s: State, creates: string -> bool, runs: seq<Boot>)
    requires forall r | r in runs :: Lex.Elements(Names(r.files)) <= s.ledger
    ensures Starts(s, creates, runs) == s
  {
    if runs != [] {
      var last := runs[|runs| - 1];
      NothingAfterCompletion(s, creates, runs[..|runs| - 1]);
      forall f | f in last.files
        ensures f.name in s.ledger
      {
        var i :| 0 <= i < |last.files| && last.files[i] == f;
        assert Names(last.files)[i] == f.name && last in runs;
      }
      AllRecorded(s, last.files, creates, last.faults);
      if last.files != [] {
        assert last.files[0].name in s.ledger;
      }
    }
  }

  lemma {:induction false} AllRecorded(s: State, files: seq<Migration>, creates: string -> bool, faults: set<Call>)
    requires forall f | f in files :: f.name in s.ledger
    ensures ApplyPending(s, files, creates, faults).0 == s && ApplyPending(s, files, creates, faults).1.applied == []
  {
    if files != [] {
      AllRecorded(s, files[1..], creates, faults);
    }
  }

  /** The loop only ever adds to the ledger, and executes only files of its directory that were
      not recorded. */
  lemma {:induction false} PendingOnly(s: State, files: seq<Migration>, creates: string -> bool, faults: set<Call>)
    ensures var s' := ApplyPending(s, files, creates, faults).0;
            && s.ledger <= s'.ledger && (s.userTable ==> s'.userTable)
            && forall x | x in s'.executed :: x in s.executed || (x in Lex.Elements(Names(files)) && x !in s.ledger)
    decreases |files|
  {
    if files != [] {
      var f, rest := files[0], files[1..];
      assert Names(files)[0] == f.name && Names(rest) == Names(files)[1..];
      PendingOnly(s, rest, creates, faults);
      var s' := State(s.ledger + {f.name}, s.executed + [f.name], s.userTable || creates(f.sql));
      PendingOnly(s', rest, creates, faults);
    }
  }

  const OLDER := State({}, [], true)

  /** A database whose schema is older than the ledger: the directory it is adopted with is
      recorded whole, and no file of the first directory is ever executed. */
  lemma {:induction false} OlderDatabaseIsAdopted(creates: string -> bool, runs: seq<Boot>)
    requires runs != [] && Growing(runs)
    ensures var (s, first, last) := (Starts(OLDER, creates, runs), runs[0].files, runs[|runs| - 1].files);
            && s.userTable && (s.ledger == {} ==> s.executed == [])
            && (s.ledger != {} ==> Lex.Elements(Names(first)) <= s.ledger)
            && forall x | x in s.executed :: x in Lex.Elements(Names(last)) && x !in Lex.Elements(Names(first))
  {
    var before, first, last := runs[..|runs| - 1], runs[0].files, runs[|runs| - 1];
    var s := Starts(OLDER, creates, before);
    NamesGrow(first, last.files);
    if before != [] {
      OlderDatabaseIsAdopted(creates, before);
      NamesGrow(before[|before| - 1].files, last.files);
    }
    PendingOnly(s, last.files, creates, last.faults);
  }

  /** From any state in which ledger and executed batches hold the same files, the loop keeps
      that iff it loses no record, and it only ever adds to what was executed. */
  lemma {:induction false} OnlyALostRecordDiverges(s: State, files: seq<Migration>, creates: string -> bool,
                                                   faults: set<Call>)
    requires Lex.Distinct(Names(files)) && s.ledger == Lex.Elements(s.executed)
    ensures var s' := ApplyPending(s, files, creates, faults).0;
            && s'.ledger <= Lex.Elements(s'.executed)
            && (s'.ledger == Lex.Elements(s'.executed) <==> !LosesRecord(files, s.ledger, faults))
            && |s.executed| <= |s'.executed| && s'.executed[..|s.executed|] == s.executed
    decreases |files|
  {
    if files != [] {
      var f, rest := files[0], files[1..];
      assert Names(rest) == Names(files)[1..];
      if Applied(f.name) !in faults {
        if f.name in s.ledger {
          OnlyALostRecordDiverges(s, rest, creates, faults);
        } else if Exec(f.name) !in faults {
          Lex.DistinctSnoc(s.executed, f.name);
          if Record(f.name) !in faults {
            var s' := State(s.ledger + {f.name}, s.executed + [f.name], s.userTable || creates(f.sql));
            OnlyALostRecordDiverges(s', rest, creates, faults);
          }
        }
      }
    }
  }

  lemma LedgerNext(names: seq<string>, k: nat)
    requires Lex.Distinct(names) && k < |names|
    ensures names[k] !in Lex.Elements(names[..k])
    ensures Lex.Elements(names[..k]) + {names[k]} == Lex.Elements(names[..k + 1])
    ensures names[k..] == [names[k]] + names[k + 1..]
  {
    assert names[..k + 1] == names[..k] + [names[k]];
    Lex.DistinctSnoc(names[..k], names[k]);
  }

  /** The loop without faults from file `k` on, when the files before it are recorded. */
  lemma {:induction false} PendingAll(s: State, files: seq<Migration>, k: nat, creates: string -> bool)
    requires k <= |files| && Lex.Distinct(Names(files)) && s.ledger == Lex.Elements(Names(files)[..k])
    ensures var (s', r) := ApplyPending(s, files[k..], creates, {});
            && s'.executed == s.executed + Names(files)[k..] && s'.ledger == Lex.Elements(Names(files))
            && r == Report(Names(files)[k..], true)
    decreases |files| - k
  {
    var names := Names(files);
    if k == |files| {
      assert names[..k] == names && names[k..] == [];
    } else {
      var f := files[k];
      assert files[k..][0] == f && files[k..][1..] == files[k + 1..];
      LedgerNext(names, k);
      var s' := State(s.ledger + {f.name}, s.executed + [f.name], s.userTable || creates(f.sql));
      PendingAll(s', files, k + 1, creates);
      assert s.executed + [f.name] + names[k + 1..] == s.executed + names[k..];
    }
  }

  /** What a lost record leads to, at the next start in which nothing fails: the batch is
      executed a second time and everything after it follows; or, when nothing was recorded yet
      and the batch had created `tb_user`, the half-built schema is adopted and no other file is
      ever executed. */
  lemma LostRecordRunsTwiceOrAdopts(s: State, files: seq<Migration>, k: nat, creates: string -> bool)
    requires Lex.Distinct(Names(files)) && LostAt(s, Names(files), k)
    ensures var (s', names) := (Start(s, files, creates, {}).0, Names(files));
            && s'.ledger == Lex.Elements(names)
            && s'.executed == if k == 0 && s.userTable then [names[0]] else names[..k + 1] + names[k..]
  {
    assert files[0..] == files;
    if k > 0 {
      assert Names(files)[..k][0] in s.ledger;
    } else {
      assert Names(files)[..1] == [Names(files)[0]];
    }
    if k > 0 || !s.userTable {
      CompletesWithoutFaults(s, files, creates);
      RecordedArePassed(s, files, 0, k, creates, {});
      PendingAll(s, files, k, creates);
    }
  }

  /** Such a start exists: on a fresh database, when recording the first file fails. */
  lemma FirstRecordLost(files: seq<Migration>, creates: string -> bool)
    requires files != []
    ensures var s := Start(FRESH, files, creates, {Record(files[0].name)}).0;
            LostAt(s, Names(files), 0) && (s.userTable <==> creates(files[0].sql))
  {
    assert Names(files)[..1] == [files[0].name];
  }
}
