/**
 The schema runner: which files of the schema directory it loads, what it strips from them,
 and how it applies them under a ledger when any call may fail.
 */
module Schema {
  import opened Prelude
  import opened Text
  import Lex

  const BOOTSTRAP_FILE := "01-create-database.sql"

  /** One directory entry; names in a directory are distinct. */
  datatype Entry = Entry(name: string, isDir: bool, content: string)

  datatype Migration = Migration(name: string, sql: string)

  // ---------------------------------------------------------------------------
  // psql meta-commands.
  // ---------------------------------------------------------------------------

  predicate Blank(s: string) {
    forall i | 0 <= i < |s| :: IsSpace(s[i])
  }

  /** A line whose first visible character is a backslash. */
  predicate IsMeta(line: string) {
    if line == [] then false
    else if IsSpace(line[0]) then IsMeta(line[1..])
    else line[0] == '\\'
  }

  /** A meta line starts with a backslash after white space only. */
  lemma {:induction false} MetaIff(line: string)
    ensures IsMeta(line) <==>
            exists k | 0 <= k < |line| :: line[k] == '\\' && forall i | 0 <= i < k :: IsSpace(line[i])
  {
    if line != [] {
      MetaIff(line[1..]);
      if IsSpace(line[0]) {
        if k :| 0 <= k < |line[1..]| && line[1..][k] == '\\' && forall i | 0 <= i < k :: IsSpace(line[1..][i]) {
          assert line[k + 1] == '\\';
          assert forall i | 0 < i < k + 1 :: line[i] == line[1..][i - 1];
        }
        if k :| 0 <= k < |line| && line[k] == '\\' && forall i | 0 <= i < k :: IsSpace(line[i]) {
          assert line[1..][k - 1] == '\\';
          assert forall i | 0 <= i < k - 1 :: line[1..][i] == line[i + 1];
        }
      }
    }
  }

  function Unmeta(lines: seq<string>): seq<string> {
    if lines == [] then []
    else if IsMeta(lines[|lines| - 1]) then Unmeta(lines[..|lines| - 1])
    else Unmeta(lines[..|lines| - 1]) + [lines[|lines| - 1]]
  }

  function Stripped(sql: string): string {
    Join(Unmeta(Split(sql, '\n')), '\n')
  }

  method StripMetaCommands(sql: string) returns (r: string)
    ensures r == Stripped(sql)
  {
    var lines := Split(sql, '\n');
    var kept := [];
    for i := 0 to |lines|
      invariant kept == Unmeta(lines[..i])
    {
      assert lines[..i + 1][..i] == lines[..i];
      if !IsMeta(lines[i]) {
        kept := kept + [lines[i]];
      }
    }
    assert lines[..|lines|] == lines;
    r := Join(kept, '\n');
  }

  lemma {:induction false} UnmetaKeeps(lines: seq<string>, l: string)
    ensures l in Unmeta(lines) <==> l in lines && !IsMeta(l)
  {
    if lines != [] {
      UnmetaKeeps(lines[..|lines| - 1], l);
      assert lines == lines[..|lines| - 1] + [lines[|lines| - 1]];
    }
  }

  lemma {:induction false} UnmetaPlain(lines: seq<string>)
    requires forall l | l in lines :: !IsMeta(l)
    ensures Unmeta(lines) == lines
  {
    if lines != [] {
      UnmetaPlain(lines[..|lines| - 1]);
      assert lines == lines[..|lines| - 1] + [lines[|lines| - 1]];
    }
  }

  /** Stripping removes exactly the meta lines: the lines of the result are the other lines
      of the file in their order (one empty line when there is none). */
  lemma StrippedLines(sql: string)
    ensures Split(Stripped(sql), '\n') == if Unmeta(Split(sql, '\n')) == [] then [[]] else Unmeta(Split(sql, '\n'))
    ensures forall l | l in Split(Stripped(sql), '\n') :: !IsMeta(l)
    ensures (forall l | l in Split(sql, '\n') :: !IsMeta(l)) ==> Stripped(sql) == sql
    ensures Stripped(Stripped(sql)) == Stripped(sql)
  {
    var lines, kept := Split(sql, '\n'), Unmeta(Split(sql, '\n'));
    SplitHasNoSeparator(sql, '\n');
    forall l ensures l in kept <==> l in lines && !IsMeta(l) {
      UnmetaKeeps(lines, l);
    }
    if kept != [] {
      SplitJoin(kept, '\n');
    }
    if forall l | l in lines :: !IsMeta(l) {
      UnmetaPlain(lines);
      JoinSplit(sql, '\n');
    }
    UnmetaPlain(Split(Stripped(sql), '\n'));
    JoinSplit(Stripped(sql), '\n');
  }

  // ---------------------------------------------------------------------------
  // The directory.
  // ---------------------------------------------------------------------------

  /** `NN-*.sql` */
  predicate IsSchemaFile(name: string) {
    && |name| >= 5 && name[|name| - 4..] == ".sql"
    && IsDigit(name[0]) && IsDigit(name[1]) && name[2] == '-'
  }

  /** A schema file is named by two digits, a dash, anything, and `.sql`. */
  lemma SchemaFileShape(name: string)
    ensures IsSchemaFile(name) <==>
            exists a: char, b: char, rest: string ::
              '0' <= a <= '9' && '0' <= b <= '9' && name == [a, b] + "-" + rest + ".sql"
  {
    if IsSchemaFile(name) {
      var n := |name|;
      assert name[n - 4..][0] == '.' && name[n - 4..][1] == 's' && name[n - 4..][2] == 'q';
      assert name[n - 4] == '.' && name[n - 3] == 's' && name[n - 2] == 'q';
      assert n >= 7;
      assert name == [name[0], name[1]] + "-" + name[3..n - 4] + ".sql";
    }
    if a: char, b: char, rest: string :| '0' <= a <= '9' && '0' <= b <= '9' && name == [a, b] + "-" + rest + ".sql" {
      assert name[|name| - 4..] == ".sql";
    }
  }

  predicate Candidate(e: Entry) {
    !e.isDir && IsSchemaFile(e.name) && e.name != BOOTSTRAP_FILE
  }

  /** Every schema file but the bootstrap one is loaded, and directories never are. */
  lemma CandidateIff(e: Entry)
    ensures Candidate(e) <==> !e.isDir && IsSchemaFile(e.name) && e.name != "01-create-database.sql"
  {
  }

  function Names(ms: seq<Migration>): (ns: seq<string>)
    ensures |ns| == |ms| && forall i | 0 <= i < |ms| :: ns[i] == ms[i].name
  {
    seq(|ms|, i requires 0 <= i < |ms| => ms[i].name)
  }

  ghost predicate IsDirectory(entries: seq<Entry>) {
    forall i, j | 0 <= i < j < |entries| :: entries[i].name != entries[j].name
  }

  /** A candidate entry and what is left of it after stripping. */
  ghost predicate Loads(entries: seq<Entry>, m: Migration) {
    exists i | 0 <= i < |entries| ::
      Candidate(entries[i]) && m == Migration(entries[i].name, Stripped(entries[i].content)) && !Blank(m.sql)
  }

  function Wanted(entries: seq<Entry>): map<string, string> {
    if entries == [] then map[]
    else
      var before, e := Wanted(entries[..|entries| - 1]), entries[|entries| - 1];
      if Candidate(e) && !Blank(Stripped(e.content)) then before[e.name := Stripped(e.content)] else before
  }

  lemma LoadsSnoc(before: seq<Entry>, e: Entry, m: Migration)
    ensures Loads(before + [e], m) <==>
            Loads(before, m) || (Candidate(e) && m == Migration(e.name, Stripped(e.content)) && !Blank(m.sql))
  {
    var entries := before + [e];
    assert entries[|before|] == e;
    if Loads(before, m) {
      var i :| 0 <= i < |before| && Candidate(before[i])
        && m == Migration(before[i].name, Stripped(before[i].content)) && !Blank(m.sql);
      assert entries[i] == before[i];
    }
  }

  lemma {:induction false} WantedNames(entries: seq<Entry>, n: string)
    requires n in Wanted(entries)
    ensures exists i :: 0 <= i < |entries| && entries[i].name == n
  {
    var before, e := entries[..|entries| - 1], entries[|entries| - 1];
    if n in Wanted(before) {
      WantedNames(before, n);
    }
  }

  /** The name of the last entry is new. */
  lemma LastNameIsNew(before: seq<Entry>, e: Entry, m: Migration)
    requires IsDirectory(before + [e]) && m.name == e.name
    ensures m.name !in Wanted(before) && !Loads(before, m)
  {
    var entries := before + [e];
    assert forall i | 0 <= i < |before| :: before[i].name != e.name by {
      forall i | 0 <= i < |before| ensures before[i].name != e.name {
        assert entries[i].name != entries[|before|].name;
      }
    }
    if m.name in Wanted(before) {
      WantedNames(before, m.name);
    }
  }

  lemma WantedSnoc(before: seq<Entry>, e: Entry)
    ensures Wanted(before + [e]) ==
            if Candidate(e) && !Blank(Stripped(e.content)) then Wanted(before)[e.name := Stripped(e.content)]
              else Wanted(before)
  {
    assert (before + [e])[..|before|] == before;
  }

  lemma {:induction false} WantedIsLoads(entries: seq<Entry>, m: Migration)
    requires IsDirectory(entries)
    ensures m.name in Wanted(entries) && Wanted(entries)[m.name] == m.sql <==> Loads(entries, m)
  {
    if entries != [] {
      var before, e := entries[..|entries| - 1], entries[|entries| - 1];
      assert entries == before + [e];
      WantedIsLoads(before, m);
      LoadsSnoc(before, e, m);
      WantedSnoc(before, e);
      if m.name == e.name {
        LastNameIsNew(before, e, m);
      }
    }
  }

  lemma MigrationsAreLoads(entries: seq<Entry>, ms: seq<Migration>)
    requires IsDirectory(entries)
    requires Lex.Elements(Names(ms)) == Wanted(entries).Keys
    requires forall m | m in ms :: m.name in Wanted(entries) && m.sql == Wanted(entries)[m.name]
    ensures forall m :: m in ms <==> Loads(entries, m)
  {
    forall m ensures m in ms <==> Loads(entries, m) {
      WantedIsLoads(entries, m);
      if m.name in Wanted(entries) && m.sql == Wanted(entries)[m.name] {
        assert m.name in Lex.Elements(Names(ms));
        var i :| 0 <= i < |ms| && Names(ms)[i] == m.name;
        assert ms[i] in ms && ms[i] == m;
      }
    }
  }

  /** The loop over the directory entries. */
  method ReadCandidates(entries: seq<Entry>, unreadable: set<string>) returns (r: Result<seq<string>, string>,
                        sqls: map<string, string>)
    requires IsDirectory(entries)
    ensures r.Err? <==> exists i :: 0 <= i < |entries| && Candidate(entries[i]) && entries[i].name in unreadable
    ensures r.Ok? ==> Lex.Distinct(r.value) && Lex.Elements(r.value) == sqls.Keys && sqls == Wanted(entries)
  {
    var names := [];
    sqls := map[];
    var i := 0;
    while i < |entries|
      invariant 0 <= i <= |entries|
      invariant forall j | 0 <= j < i :: !(Candidate(entries[j]) && entries[j].name in unreadable)
      invariant Lex.Distinct(names) && Lex.Elements(names) == sqls.Keys
      invariant sqls == Wanted(entries[..i])
    {
      var e := entries[i];
      assert entries[..i + 1][..i] == entries[..i];
      if Candidate(e) {
        if e.name in unreadable {
          return Err(e.name), sqls;
        }
        var sql := StripMetaCommands(e.content);
        if !Blank(sql) {
          if e.name in Wanted(entries[..i]) {
            WantedNames(entries[..i], e.name);
          }
          Lex.DistinctSnoc(names, e.name);
          names, sqls := names + [e.name], sqls[e.name := sql];
        }
      }
      i := i + 1;
    }
    assert entries[..|entries|] == entries;
    r := Ok(names);
  }

  /** Loads the directory: the candidate files that hold any SQL, stripped, in lexical order.
      It fails iff a candidate cannot be read. */
  method Load(entries: seq<Entry>, unreadable: set<string>) returns (r: Result<seq<Migration>, string>)
    requires IsDirectory(entries)
    ensures r.Err? <==> exists i :: 0 <= i < |entries| && Candidate(entries[i]) && entries[i].name in unreadable
    ensures r.Ok? ==> Lex.Ordered(Names(r.value)) && Lex.Distinct(Names(r.value))
    ensures r.Ok? ==> forall m :: m in r.value <==> Loads(entries, m)
  {
    var names, sqls := ReadCandidates(entries, unreadable);
    if names.Err? {
      return Err(names.error);
    }
    var sorted := Lex.Sort(names.value);
    Lex.SameElements(sorted, names.value);
    var ms := seq(|sorted|, i requires 0 <= i < |sorted| =>
      Migration(sorted[i], if sorted[i] in sqls then sqls[sorted[i]] else ""));
    assert Names(ms) == sorted;
    forall m | m in ms ensures m.name in sqls && m.sql == sqls[m.name] {
      assert m.name in Lex.Elements(sorted);
    }
    MigrationsAreLoads(entries, ms);
    r := Ok(ms);
  }
}
