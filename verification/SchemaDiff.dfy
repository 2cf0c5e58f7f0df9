/** The schema differ: commands that turn the tables of a live database into those of a target file,
    emitted while walking two dictionaries in whatever order they yield their keys. */
module SchemaDiff {
  import opened ColumnText
  import opened Common

  /* The line in which the database dumps a column it was given by the text of its definition. */
  type Dump = Def -> Def

  /* Columns by name, tables by name. */
  type Table = map<string, Def>
  type Schema = map<string, Table>

  datatype Command =
    | CreateTable(table: string, columns: Table)
    | AddColumn(table: string, column: string, def: Def)
    | ModifyColumn(table: string, column: string, def: Def)
    | DropTable(table: string)
    | DropColumn(table: string, column: string)

  // ----- What the database does with a command -----

  function Stored(dump: Dump, columns: Table): Table {
    map c | c in columns :: dump(columns[c])
  }

  /* A table without columns is refused, and so is everything about tables or columns that are not there. */
  function Apply(dump: Dump, db: Schema, c: Command): Option<Schema> {
    match c
    case CreateTable(t, columns) => if t !in db && columns != map[] then Some(db[t := Stored(dump, columns)]) else None
    case AddColumn(t, col, def) => if t in db && col !in db[t] then Some(db[t := db[t][col := dump(def)]]) else None
    case ModifyColumn(t, col, def) => if t in db && col in db[t] then Some(db[t := db[t][col := dump(def)]]) else None
    case DropTable(t) => if t in db then Some(db - {t}) else None
    case DropColumn(t, col) =>
      if t in db && col in db[t] && db[t] - {col} != map[] then Some(db[t := db[t] - {col}]) else None
  }

  function Run(dump: Dump, db: Schema, cs: seq<Command>): Option<Schema> {
    if |cs| == 0 then Some(db)
    else
      match Run(dump, db, cs[..|cs| - 1])
      case None => None
      case Some(db') => Apply(dump, db', cs[|cs| - 1])
  }

  lemma RunNothing(dump: Dump, db: Schema)
    ensures Run(dump, db, []) == Some(db)
  {
  }

  lemma RunSnoc(dump: Dump, db: Schema, cs: seq<Command>, c: Command)
    ensures Run(dump, db, cs + [c]) ==
            match Run(dump, db, cs)
            case None => None
            case Some(db') => Apply(dump, db', c)
  {
    assert (cs + [c])[..|cs|] == cs;
  }

  lemma {:induction false} RunAppend(dump: Dump, db: Schema, cs: seq<Command>, more: seq<Command>)
    ensures Run(dump, db, cs + more) ==
            match Run(dump, db, cs)
            case None => None
            case Some(db') => Run(dump, db', more)
  {
    if |more| == 0 {
      assert cs + more == cs;
    } else {
      hide Apply, Run;
      var init, c := more[..|more| - 1], more[|more| - 1];
      assert more == init + [c] && cs + more == (cs + init) + [c];
      RunAppend(dump, db, cs, init);
      RunSnoc(dump, db, cs + init, c);
      if Run(dump, db, cs).Some? {
        RunSnoc(dump, Run(dump, db, cs).value, init, c);
      }
    }
  }

  predicate NoEmptyTable(db: Schema) {
    forall t :: t in db ==> db[t] != map[]
  }

  /** No command leaves an empty table behind, so no state on the way from a sound schema has one. */
  lemma {:induction false} RunKeepsTablesFilled(dump: Dump, db: Schema, cs: seq<Command>)
    requires NoEmptyTable(db) && Run(dump, db, cs).Some?
    ensures NoEmptyTable(Run(dump, db, cs).value)
  {
    if |cs| == 0 {
    } else {
      RunKeepsTablesFilled(dump, db, cs[..|cs| - 1]);
      ApplyKeepsTablesFilled(dump, Run(dump, db, cs[..|cs| - 1]).value, cs[|cs| - 1]);
    }
  }

  lemma ApplyKeepsTablesFilled(dump: Dump, db: Schema, c: Command)
    requires NoEmptyTable(db) && Apply(dump, db, c).Some?
    ensures NoEmptyTable(Apply(dump, db, c).value)
  {
    if c.AddColumn? || c.ModifyColumn? {
      assert c.column in db[c.table][c.column := c.def];
    }
  }

  // ----- The differ -----

  /* Same tables, same columns, same definitions up to normal form. */
  predicate Equivalent(a: Schema, b: Schema) {
    && a.Keys == b.Keys
    && forall t :: t in a ==> EquivalentTable(a[t], b[t])
  }

  predicate EquivalentTable(a: Table, b: Table) {
    && a.Keys == b.Keys
    && forall c :: c in a ==> Normal(a[c]) == Normal(b[c])
  }

  /* The text in which ADD or MODIFY sends a column of the target to a table that is there on both sides. */
  function Sent(target: Table, cur: Table, c: string): (text: Option<Def>)
    requires c in target
    ensures text == None <==> c in cur && Normal(target[c]) == Normal(cur[c])
  {
    if c !in cur then Some(Remove(target[c], ','))
    else if Normal(target[c]) != Normal(cur[c]) then Some(Normal(target[c]))
    else None
  }

  /* The column that is there afterwards. */
  function Merged(dump: Dump, target: Table, cur: Table, c: string): Def
    requires c in target
  {
    match Sent(target, cur, c)
    case Some(text) => dump(text)
    case None => cur[c]
  }

  /* cur once the given columns of the target have been added or modified. */
  function Merge(dump: Dump, target: Table, cur: Table, cols: set<string>): Table
    requires cols <= target.Keys
  {
    map c | c in cur.Keys + cols :: if c in cols then Merged(dump, target, cur, c) else cur[c]
  }

  /* The current schema once the given tables of the target have been created or merged. */
  function FirstPass(dump: Dump, target: Schema, cur: Schema, tables: set<string>): Schema
    requires tables <= target.Keys
  {
    map t | t in cur.Keys + tables ::
      if t !in tables then cur[t]
      else if t !in cur then Stored(dump, target[t])
      else Merge(dump, target[t], cur[t], target[t].Keys)
  }

  /* ... and once the given tables of the current schema have been dropped or stripped. */
  function SecondPass(dump: Dump, target: Schema, cur: Schema, tables: set<string>): Schema
    requires tables <= cur.Keys
  {
    var mid := FirstPass(dump, target, cur, target.Keys);
    map t | t in mid && (t in tables ==> t in target) ::
      if t in tables then mid[t] - (cur[t].Keys - target[t].Keys) else mid[t]
  }

  /* The text in which a column of the target is sent at all; CREATE sends it as it is. */
  function SentTo(target: Schema, cur: Schema, t: string, c: string): Option<Def>
    requires t in target && c in target[t]
  {
    if t !in cur then Some(target[t][c]) else Sent(target[t], cur[t], c)
  }

  lemma SentUnless(target: Schema, cur: Schema, t: string, c: string)
    requires t in target && c in target[t] && SentTo(target, cur, t, c) == None
    ensures t in cur && c in cur[t] && Normal(target[t][c]) == Normal(cur[t][c])
  {
  }

  /* Every text sent comes back from the database with the normal form of its definition. */
  predicate Settles(dump: Dump, target: Schema, cur: Schema) {
    forall t, c :: t in target && c in target[t] ==> ReadBack(dump, target[t][c], SentTo(target, cur, t, c))
  }

  predicate ReadBack(dump: Dump, d: Def, text: Option<Def>) {
    text.Some? ==> Normal(dump(text.value)) == Normal(d)
  }

  /* The column that is there after both passes. */
  lemma ColumnReached(dump: Dump, target: Schema, cur: Schema, t: string, c: string) returns (x: Def)
    requires t in target && c in target[t]
    ensures var end := SecondPass(dump, target, cur, cur.Keys); t in end && c in end[t] && x == end[t][c]
    ensures x == if SentTo(target, cur, t, c).Some? then dump(SentTo(target, cur, t, c).value) else cur[t][c]
  {
    hide Normal, Remove;
    x := SecondPass(dump, target, cur, cur.Keys)[t][c];
  }

  lemma SecondPassKeys(dump: Dump, target: Schema, cur: Schema)
    ensures var end := SecondPass(dump, target, cur, cur.Keys);
            end.Keys == target.Keys && forall t :: t in end ==> end[t].Keys == target[t].Keys
  {
    hide Sent;
  }

  /** The schema reached is the target, up to the normal form of definitions, exactly when every text sent
      comes back with the normal form it was sent for. */
  lemma SecondPassIsTargetIff(dump: Dump, target: Schema, cur: Schema)
    ensures Equivalent(SecondPass(dump, target, cur, cur.Keys), target) <==> Settles(dump, target, cur)
  {
    hide SecondPass, SentTo, Normal;
    var end := SecondPass(dump, target, cur, cur.Keys);
    SecondPassKeys(dump, target, cur);
    forall t, c | t in target && c in target[t]
      ensures Normal(end[t][c]) == Normal(target[t][c]) <==> ReadBack(dump, target[t][c], SentTo(target, cur, t, c))
    {
      var x := ColumnReached(dump, target, cur, t, c);
      if SentTo(target, cur, t, c) == None {
        SentUnless(target, cur, t, c);
      }
    }
  }

  // ----- Definitions, not only their normal forms -----

  /* A definition whose commas can be taken out without the word COMMENT coming together. */
  ghost predicate Defines(d: Def, core: string) {
    LineOf(d, core) && Core(Remove(core, ','))
  }

  /* Every column of the file stands on a line of its own. */
  ghost predicate FileOfLines(target: Schema) {
    forall t, c :: t in target && c in target[t] ==> exists core :: Defines(target[t][c], core)
  }

  /* What is printed for the three texts a definition can be sent in. */
  lemma Printed(dump: Dump, d: Def, core: string)
    requires PrintsLines(dump) && Defines(d, core)
    ensures LineOf(dump(d), core)
    ensures LineOf(dump(Remove(d, ',')), Remove(core, ',')) && LineOf(dump(Normal(d)), Remove(core, ','))
    ensures Normal(dump(d)) == Normal(dump(Remove(d, ','))) == Normal(dump(Normal(d))) == Normal(d)
  {
    hide Normal, Remove, LineOf, Core;
    LineHasCore(d, core);
    var less := Remove(core, ',');
    NormalOfLine(d, core);
    LineWithoutCommas(d, core);
    RemoveGone(core, ',');
    RemoveAbsent(less, ',');
    NormalOfLine(dump(d), core);
    NormalOfLine(dump(Remove(d, ',')), less);
    NormalOfLine(dump(less), less);
  }

  lemma LineHasCore(line: string, core: string)
    requires LineOf(line, core)
    ensures Core(core)
  {
  }

  /** With a file of definition lines and a database that prints a line of the definition it is given, every
      text comes back with the right normal form. */
  lemma FileSettles(dump: Dump, target: Schema, cur: Schema)
    requires FileOfLines(target) && PrintsLines(dump)
    ensures Settles(dump, target, cur)
  {
    hide Normal, Remove, Defines, PrintsLines;
    forall t, c | t in target && c in target[t]
      ensures ReadBack(dump, target[t][c], SentTo(target, cur, t, c))
    {
      var core :| Defines(target[t][c], core);
      Printed(dump, target[t][c], core);
    }
  }

  /* Two lines of the same definition. */
  ghost predicate SameDefinition(a: Def, b: Def) {
    exists core :: LineOf(a, core) && LineOf(b, core)
  }

  ghost predicate CommaFree(d: Def) {
    exists core :: LineOf(d, core) && ',' !in core
  }

  /* Before the commands: the column is in a table to be created, or has its definition already, or is to be
     sent and has no comma in it. */
  ghost predicate WillArrive(target: Schema, cur: Schema, t: string, c: string)
    requires t in target && c in target[t]
  {
    t !in cur
    || if c in cur[t] && Normal(target[t][c]) == Normal(cur[t][c]) then SameDefinition(target[t][c], cur[t][c])
       else CommaFree(target[t][c])
  }

  lemma SameDefinitionIff(d: Def, core: string, other: Def)
    requires LineOf(d, core)
    ensures SameDefinition(d, other) <==> LineOf(other, core)
    ensures CommaFree(d) <==> ',' !in core
  {
    hide LineOf;
    if core' :| LineOf(d, core') && (LineOf(other, core') || ',' !in core') {
      CoreUnique(d, core, core');
    }
    forall core' | LineOf(d, core') ensures core' == core {
      CoreUnique(d, core, core');
    }
  }

  /* The line with or without its commas is a line of core. */
  lemma LessIsCoreIff(line: string, core: string)
    requires LineOf(line, Remove(core, ','))
    ensures LineOf(line, core) <==> ',' !in core
  {
    hide Remove, LineOf;
    RemoveSameIff(core, ',');
    if LineOf(line, core) {
      CoreUnique(line, core, Remove(core, ','));
    }
  }

  /** The column reached has the definition of the file exactly when its table is created, or it had the
      definition before, or it is sent and there is no comma in it. */
  lemma ArrivesIff(dump: Dump, target: Schema, cur: Schema, t: string, c: string)
    requires PrintsLines(dump) && t in target && c in target[t]
    requires exists core :: Defines(target[t][c], core)
    ensures var end := SecondPass(dump, target, cur, cur.Keys);
            && t in end && c in end[t]
            && (SameDefinition(target[t][c], end[t][c]) <==> WillArrive(target, cur, t, c))
  {
    hide Normal, Remove, LineOf, PrintsLines;
    var d := target[t][c];
    var core :| Defines(d, core);
    var x := ColumnReached(dump, target, cur, t, c);
    Printed(dump, d, core);
    SameDefinitionIff(d, core, x);
    LessIsCoreIff(dump(Remove(d, ',')), core);
    LessIsCoreIff(dump(Normal(d)), core);
  }

  /* The same tables and columns, each with the same definition. */
  ghost predicate Identical(a: Schema, b: Schema) {
    && a.Keys == b.Keys
    && forall t :: t in a ==> a[t].Keys == b[t].Keys && forall c :: c in a[t] ==> SameDefinition(a[t][c], b[t][c])
  }

  ghost predicate AllArrive(target: Schema, cur: Schema) {
    forall t, c :: t in target && c in target[t] ==> WillArrive(target, cur, t, c)
  }

  /** So the schema reached has the definitions of the file exactly when that holds for every column. */
  lemma IdenticalIff(dump: Dump, target: Schema, cur: Schema)
    requires FileOfLines(target) && PrintsLines(dump)
    ensures Identical(target, SecondPass(dump, target, cur, cur.Keys)) <==> AllArrive(target, cur)
  {
    hide SecondPass, SameDefinition, WillArrive, Defines, PrintsLines;
    var end := SecondPass(dump, target, cur, cur.Keys);
    SecondPassKeys(dump, target, cur);
    forall t, c | t in target && c in target[t]
      ensures SameDefinition(target[t][c], end[t][c]) <==> WillArrive(target, cur, t, c)
    {
      ArrivesIff(dump, target, cur, t, c);
    }
  }

  /** An instance: where the column with the decimal(13,2) has to be added or modified, decimal(132) is what it
      becomes, and no later diff notices. */
  lemma DecimalDoesNotArrive(dump: Dump, target: Schema, cur: Schema, t: string, c: string)
    requires PrintsLines(dump) && t in target && c in target[t] && LineOf(target[t][c], BEFORE + "," + AFTER)
    requires t in cur && (c !in cur[t] || Normal(cur[t][c]) != Normal(target[t][c]))
    ensures var end := SecondPass(dump, target, cur, cur.Keys);
            && t in end && c in end[t] && LineOf(end[t][c], BEFORE + AFTER)
            && !SameDefinition(target[t][c], end[t][c]) && Normal(end[t][c]) == Normal(target[t][c])
  {
    hide Normal, Remove, LineOf, PrintsLines, Core;
    var core := BEFORE + "," + AFTER;
    OneComma(BEFORE, AFTER);
    DecimalIsCore();
    Printed(dump, target[t][c], core);
    var x := ColumnReached(dump, target, cur, t, c);
    SameDefinitionIff(target[t][c], core, x);
    LessIsCoreIff(x, core);
  }

  lemma MergeStep(dump: Dump, target: Table, cur: Table, cols: set<string>, c: string)
    requires cols <= target.Keys && c in target
    ensures Merge(dump, target, cur, cols + {c}) == Merge(dump, target, cur, cols)[c := Merged(dump, target, cur, c)]
    ensures c !in cols ==> (c in Merge(dump, target, cur, cols) <==> c in cur)
    ensures c !in cols && c in cur ==> Merge(dump, target, cur, cols)[c := cur[c]] == Merge(dump, target, cur, cols)
  {
  }

  /* One more column added to table t, which has the columns cols by then ... */
  lemma RunAdd(dump: Dump, db: Schema, cs: seq<Command>, t: string, c: string, text: Def, cols: Table)
    requires c !in cols && Run(dump, db, cs) == Some(db[t := cols])
    ensures Run(dump, db, cs + [AddColumn(t, c, text)]) == Some(db[t := cols[c := dump(text)]])
  {
    hide Run;
    RunSnoc(dump, db, cs, AddColumn(t, c, text));
    assert db[t := cols][t := cols[c := dump(text)]] == db[t := cols[c := dump(text)]];
  }

  /* ... or modified in it. */
  lemma RunModify(dump: Dump, db: Schema, cs: seq<Command>, t: string, c: string, text: Def, cols: Table)
    requires c in cols && Run(dump, db, cs) == Some(db[t := cols])
    ensures Run(dump, db, cs + [ModifyColumn(t, c, text)]) == Some(db[t := cols[c := dump(text)]])
  {
    hide Run;
    RunSnoc(dump, db, cs, ModifyColumn(t, c, text));
    assert db[t := cols][t := cols[c := dump(text)]] == db[t := cols[c := dump(text)]];
  }

  /* One more column dropped from table t, which has the columns cols by then. */
  lemma RunDrop(dump: Dump, db: Schema, cs: seq<Command>, t: string, c: string, cols: Table)
    requires c in cols && (Run(dump, db, cs).Some? ==> Run(dump, db, cs).value == db[t := cols])
    ensures var after := Run(dump, db, cs + [DropColumn(t, c)]);
            && (after.Some? <==> Run(dump, db, cs).Some? && cols - {c} != map[])
            && (after.Some? ==> after.value == db[t := cols - {c}])
  {
    hide Run;
    RunSnoc(dump, db, cs, DropColumn(t, c));
    assert db[t := cols][t := cols - {c}] == db[t := cols - {c}];
  }

  /* The commands for the columns of a table on both sides, each told by the text of the file alone. */
  predicate IsAdd(d: Command, t: string, target: Table, cur: Table) {
    && d.AddColumn? && d.table == t
    && d.column in target && d.column !in cur && d.def == Remove(target[d.column], ',')
  }

  predicate IsModify(d: Command, t: string, target: Table, cur: Table) {
    && d.ModifyColumn? && d.table == t && d.column in target && d.column in cur
    && Normal(target[d.column]) != Normal(cur[d.column]) && d.def == Normal(target[d.column])
  }

  predicate IsDrop(d: Command, t: string, target: Table, cur: Table) {
    d.DropColumn? && d.table == t && d.column in cur && d.column !in target
  }

  predicate Distinct(cs: seq<Command>) {
    forall i, j :: 0 <= i < j < |cs| ==> cs[i] != cs[j]
  }

  lemma DistinctAppend(a: seq<Command>, b: seq<Command>)
    requires Distinct(a) && Distinct(b) && forall d :: d in a ==> d !in b
    ensures Distinct(a + b)
  {
    var cs := a + b;
    forall i, j | 0 <= i < j < |cs| ensures cs[i] != cs[j] {
      if i < |a| <= j {
        assert cs[i] in a && cs[j] in b;
      }
    }
  }

  /* cs holds each of the commands that p allows once, and nothing else. */
  ghost predicate Exactly(cs: seq<Command>, p: Command -> bool) {
    Distinct(cs) && forall d :: d in cs <==> p(d)
  }

  lemma ExactlyMore(a: seq<Command>, p: Command -> bool, b: seq<Command>, q: Command -> bool, r: Command -> bool)
    requires Exactly(a, p) && Exactly(b, q)
    requires forall d :: (p(d) ==> !q(d)) && (r(d) <==> p(d) || q(d))
    ensures Exactly(a + b, r)
  {
    DistinctAppend(a, b);
  }

  lemma ExactlyNone(p: Command -> bool)
    requires forall d :: !p(d)
    ensures Exactly([], p)
  {
  }

  lemma ExactlyOne(d: Command, p: Command -> bool)
    requires forall e :: p(e) <==> e == d
    ensures Exactly([d], p)
  {
  }

  lemma ExactlySame(a: seq<Command>, p: Command -> bool, r: Command -> bool)
    requires Exactly(a, p) && forall d :: r(d) <==> p(d)
    ensures Exactly(a, r)
  {
  }

  /* The inner loop of the first pass, for a table present on both sides. */
  method MergeTable(ghost dump: Dump, t: string, target: Table, cur: Table, ghost db: Schema) returns (cs: seq<Command>)
    requires t in db && db[t] == cur
    ensures Run(dump, db, cs) == Some(db[t := Merge(dump, target, cur, target.Keys)])
    ensures EquivalentColumns(target, cur) <==> cs == []
    ensures Exactly(cs, MergedBy(t, target, cur, target.Keys))
  {
    cs := [];
    var todo := target.Keys;
    ghost var done: set<string> := {};
    assert Merge(dump, target, cur, {}) == cur && db[t := cur] == db;
    ExactlyNone(MergedBy(t, target, cur, done));
    hide Run, Apply, Merge, Normal, Remove, Exactly, MergedBy;
    assert Run(dump, db, []) == Some(db) by { RunNothing(dump, db); }
    while todo != {}
      invariant done + todo == target.Keys && done !! todo
      invariant Run(dump, db, cs) == Some(db[t := Merge(dump, target, cur, done)])
      invariant cs == [] <==> forall c :: c in done ==> c in cur && Normal(target[c]) == Normal(cur[c])
      invariant Exactly(cs, MergedBy(t, target, cur, done))
    {
      var c :| c in todo;
      ghost var before := Merge(dump, target, cur, done);
      MergeStep(dump, target, cur, done, c);
      MergedMore(cs, t, target, cur, done, c);
      if c !in cur {
        var text := Remove(target[c], ',');
        RunAdd(dump, db, cs, t, c, text, before);
        cs := cs + [AddColumn(t, c, text)];
      } else if Normal(target[c]) != Normal(cur[c]) {
        var text := Normal(target[c]);
        RunModify(dump, db, cs, t, c, text, before);
        cs := cs + [ModifyColumn(t, c, text)];
      }
      done, todo := done + {c}, todo - {c};
    }
    assert done == target.Keys;
  }

  /* Every column of the target is already there. */
  predicate EquivalentColumns(target: Table, cur: Table) {
    forall c :: c in target ==> c in cur && Normal(target[c]) == Normal(cur[c])
  }

  /* The ADD and MODIFY commands for some of the columns. */
  ghost function MergedBy(t: string, target: Table, cur: Table, done: set<string>): Command -> bool {
    d => (IsAdd(d, t, target, cur) || IsModify(d, t, target, cur)) && d.column in done
  }

  lemma MergedMore(cs: seq<Command>, t: string, target: Table, cur: Table, done: set<string>, c: string)
    requires Exactly(cs, MergedBy(t, target, cur, done)) && c in target && c !in done
    ensures var more := if c !in cur then [AddColumn(t, c, Remove(target[c], ','))]
                        else if Normal(target[c]) != Normal(cur[c]) then [ModifyColumn(t, c, Normal(target[c]))]
                        else [];
            Exactly(cs + more, MergedBy(t, target, cur, done + {c}))
  {
    hide Exactly, Remove, Normal;
    var only := (d: Command) => (IsAdd(d, t, target, cur) || IsModify(d, t, target, cur)) && d.column == c;
    if c !in cur {
      ExactlyOne(AddColumn(t, c, Remove(target[c], ',')), only);
      ExactlyMore(cs, MergedBy(t, target, cur, done), [AddColumn(t, c, Remove(target[c], ','))], only,
                  MergedBy(t, target, cur, done + {c}));
    } else if Normal(target[c]) != Normal(cur[c]) {
      ExactlyOne(ModifyColumn(t, c, Normal(target[c])), only);
      ExactlyMore(cs, MergedBy(t, target, cur, done), [ModifyColumn(t, c, Normal(target[c]))], only,
                  MergedBy(t, target, cur, done + {c}));
    } else {
      assert cs + [] == cs;
      ExactlySame(cs, MergedBy(t, target, cur, done), MergedBy(t, target, cur, done + {c}));
    }
  }

  ghost function StrippedBy(t: string, target: Table, cur: Table, done: set<string>): Command -> bool {
    d => IsDrop(d, t, target, cur) && d.column in done
  }

  lemma StrippedMore(cs: seq<Command>, t: string, target: Table, cur: Table, done: set<string>, c: string)
    requires Exactly(cs, StrippedBy(t, target, cur, done)) && c in cur && c !in done
    ensures Exactly(cs + (if c !in target then [DropColumn(t, c)] else []), StrippedBy(t, target, cur, done + {c}))
  {
    hide Exactly;
    if c !in target {
      var only := (d: Command) => IsDrop(d, t, target, cur) && d.column == c;
      ExactlyOne(DropColumn(t, c), only);
      ExactlyMore(cs, StrippedBy(t, target, cur, done), [DropColumn(t, c)], only,
                  StrippedBy(t, target, cur, done + {c}));
    } else {
      assert cs + [] == cs;
      ExactlySame(cs, StrippedBy(t, target, cur, done), StrippedBy(t, target, cur, done + {c}));
    }
  }

  /* The inner loop of the second pass, for a table present on both sides. */
  method StripTable(ghost dump: Dump, t: string, target: Table, cur: Table, ghost db: Schema) returns (cs: seq<Command>)
    requires t in db && cur.Keys + target.Keys == db[t].Keys
    ensures target != map[] ==> Run(dump, db, cs).Some?
    ensures Run(dump, db, cs).Some? ==> Run(dump, db, cs).value == db[t := db[t] - (cur.Keys - target.Keys)]
    ensures cur.Keys <= target.Keys <==> cs == []
    ensures Exactly(cs, StrippedBy(t, target, cur, cur.Keys))
  {
    cs := [];
    var todo := cur.Keys;
    ghost var done: set<string> := {};
    assert done - target.Keys == {} && db[t] - {} == db[t] && db[t := db[t]] == db;
    ExactlyNone(StrippedBy(t, target, cur, done));
    hide Run, Exactly, StrippedBy;
    RunNothing(dump, db);
    while todo != {}
      invariant done + todo == cur.Keys && done !! todo
      invariant target != map[] ==> Run(dump, db, cs).Some?
      invariant Run(dump, db, cs).Some? ==> Run(dump, db, cs).value == db[t := db[t] - (done - target.Keys)]
      invariant cs == [] <==> done <= target.Keys
      invariant Exactly(cs, StrippedBy(t, target, cur, done))
    {
      var c :| c in todo;
      StrippedMore(cs, t, target, cur, done, c);
      if c !in target {
        RunDrop(dump, db, cs, t, c, db[t] - (done - target.Keys));
        assert db[t] - (done - target.Keys) - {c} == db[t] - (done + {c} - target.Keys);
        if target != map[] {
          var x :| x in target;
          assert x in db[t] - (done + {c} - target.Keys);
        }
        cs := cs + [DropColumn(t, c)];
      } else {
        assert done + {c} - target.Keys == done - target.Keys;
        assert cs + [] == cs;
      }
      done, todo := done + {c}, todo - {c};
    }
    assert done == cur.Keys;
  }

  /* The commands of the first pass, and of the second. */
  predicate First(d: Command, target: Schema, cur: Schema) {
    && d.table in target
    && if d.table !in cur then d == CreateTable(d.table, target[d.table])
       else IsAdd(d, d.table, target[d.table], cur[d.table]) || IsModify(d, d.table, target[d.table], cur[d.table])
  }

  predicate Second(d: Command, target: Schema, cur: Schema) {
    && d.table in cur
    && if d.table !in target then d == DropTable(d.table)
       else IsDrop(d, d.table, target[d.table], cur[d.table])
  }

  ghost function FirstBy(target: Schema, cur: Schema, done: set<string>): Command -> bool {
    d => First(d, target, cur) && d.table in done
  }

  ghost function SecondBy(target: Schema, cur: Schema, done: set<string>): Command -> bool {
    d => Second(d, target, cur) && d.table in done
  }

  /* The commands of one more table. */
  lemma FirstMore(cs: seq<Command>, more: seq<Command>, target: Schema, cur: Schema, done: set<string>, t: string)
    requires Exactly(cs, FirstBy(target, cur, done)) && t in target && t !in done
    requires if t !in cur then more == [CreateTable(t, target[t])]
             else Exactly(more, MergedBy(t, target[t], cur[t], target[t].Keys))
    ensures Exactly(cs + more, FirstBy(target, cur, done + {t}))
  {
    hide Exactly, Normal, Remove;
    var only := (d: Command) => First(d, target, cur) && d.table == t;
    if t !in cur {
      ExactlyOne(CreateTable(t, target[t]), only);
    } else {
      ExactlySame(more, MergedBy(t, target[t], cur[t], target[t].Keys), only);
    }
    ExactlyMore(cs, FirstBy(target, cur, done), more, only, FirstBy(target, cur, done + {t}));
  }

  lemma SecondMore(cs: seq<Command>, more: seq<Command>, target: Schema, cur: Schema, done: set<string>, t: string)
    requires Exactly(cs, SecondBy(target, cur, done)) && t in cur && t !in done
    requires if t !in target then more == [DropTable(t)]
             else Exactly(more, StrippedBy(t, target[t], cur[t], cur[t].Keys))
    ensures Exactly(cs + more, SecondBy(target, cur, done + {t}))
  {
    hide Exactly;
    var only := (d: Command) => Second(d, target, cur) && d.table == t;
    if t !in target {
      ExactlyOne(DropTable(t), only);
    } else {
      ExactlySame(more, StrippedBy(t, target[t], cur[t], cur[t].Keys), only);
    }
    ExactlyMore(cs, SecondBy(target, cur, done), more, only, SecondBy(target, cur, done + {t}));
  }

  /* Both passes together, told by the two schemas alone. */
  lemma CommandsTold(first: seq<Command>, second: seq<Command>, target: Schema, cur: Schema)
    requires Exactly(first, FirstBy(target, cur, target.Keys)) && Exactly(second, SecondBy(target, cur, cur.Keys))
    ensures Distinct(first + second)
    ensures forall d :: d in first + second <==> First(d, target, cur) || Second(d, target, cur)
  {
    var p, q := FirstBy(target, cur, target.Keys), SecondBy(target, cur, cur.Keys);
    ExactlyMore(first, p, second, q, d => p(d) || q(d));
  }

  lemma FirstTold(cs: seq<Command>, target: Schema, cur: Schema)
    requires forall d :: d in cs <==> First(d, target, cur) || Second(d, target, cur)
    ensures forall t, columns :: CreateTable(t, columns) in cs <==>
              t in target && t !in cur && columns == target[t]
    ensures forall t, c, x :: AddColumn(t, c, x) in cs <==>
              t in target && t in cur && c in target[t] && c !in cur[t] && x == Remove(target[t][c], ',')
    ensures forall t, c, x :: ModifyColumn(t, c, x) in cs <==>
              && t in target && t in cur && c in target[t] && c in cur[t]
              && Normal(target[t][c]) != Normal(cur[t][c]) && x == Normal(target[t][c])
  {
    hide Normal, Remove;
  }

  lemma SecondTold(cs: seq<Command>, target: Schema, cur: Schema)
    requires forall d :: d in cs <==> First(d, target, cur) || Second(d, target, cur)
    ensures forall t :: DropTable(t) in cs <==> t in cur && t !in target
    ensures forall t, c :: DropColumn(t, c) in cs <==> t in cur && t in target && c in cur[t] && c !in target[t]
  {
    hide Normal, Remove;
  }

  /* Nothing to do in either loop. */
  lemma NothingIff(target: Schema, cur: Schema)
    ensures Equivalent(target, cur) <==>
            && (forall t :: t in target ==> t in cur && EquivalentColumns(target[t], cur[t]))
            && (forall t :: t in cur ==> t in target && cur[t].Keys <= target[t].Keys)
  {
    hide Normal;
  }

  method Compare(ghost dump: Dump, target: Schema, cur: Schema) returns (cs: seq<Command>)
    ensures NoEmptyTable(target) ==> Run(dump, cur, cs).Some?
    ensures Run(dump, cur, cs).Some? ==> Run(dump, cur, cs).value == SecondPass(dump, target, cur, cur.Keys)
    ensures cs == [] <==> Equivalent(target, cur)
    ensures Distinct(cs)
    ensures forall t, columns :: CreateTable(t, columns) in cs <==> t in target && t !in cur && columns == target[t]
    ensures forall t, c, x :: AddColumn(t, c, x) in cs <==>
              t in target && t in cur && c in target[t] && c !in cur[t] && x == Remove(target[t][c], ',')
    ensures forall t, c, x :: ModifyColumn(t, c, x) in cs <==>
              && t in target && t in cur && c in target[t] && c in cur[t]
              && Normal(target[t][c]) != Normal(cur[t][c]) && x == Normal(target[t][c])
    ensures forall t :: DropTable(t) in cs <==> t in cur && t !in target
    ensures forall t, c :: DropColumn(t, c) in cs <==> t in cur && t in target && c in cur[t] && c !in target[t]
  {
    hide Run, FirstPass, SecondPass, Equivalent, EquivalentColumns, Exactly, First, Second, FirstBy, SecondBy, Distinct;
    cs := FirstLoop(dump, target, cur);
    var more := SecondLoop(dump, target, cur);
    RunAppend(dump, cur, cs, more);
    CommandsTold(cs, more, target, cur);
    cs := cs + more;
    hide *;
    FirstTold(cs, target, cur);
    SecondTold(cs, target, cur);
    NothingIff(target, cur);
  }

  lemma FirstPassStep(dump: Dump, target: Schema, cur: Schema, tables: set<string>, t: string)
    requires tables <= target.Keys && t in target && t !in tables
    ensures var before := FirstPass(dump, target, cur, tables);
            && (t in cur <==> t in before) && (t in cur ==> before[t] == cur[t])
            && FirstPass(dump, target, cur, tables + {t})
               == before[t := if t !in cur then Stored(dump, target[t])
                              else Merge(dump, target[t], cur[t], target[t].Keys)]
  {
  }

  lemma SecondPassStep(dump: Dump, target: Schema, cur: Schema, tables: set<string>, t: string)
    requires tables <= cur.Keys && t in cur && t !in tables
    ensures var before := SecondPass(dump, target, cur, tables);
            && t in before
            && (t in target ==> before[t].Keys == cur[t].Keys + target[t].Keys)
            && SecondPass(dump, target, cur, tables + {t})
               == if t !in target then before - {t} else before[t := before[t] - (cur[t].Keys - target[t].Keys)]
  {
  }

  lemma RunCreate(dump: Dump, db: Schema, cs: seq<Command>, t: string, columns: Table, before: Schema)
    requires t !in before && (Run(dump, db, cs).Some? ==> Run(dump, db, cs).value == before)
    ensures var after := Run(dump, db, cs + [CreateTable(t, columns)]);
            && (after.Some? <==> Run(dump, db, cs).Some? && columns != map[])
            && (after.Some? ==> after.value == before[t := Stored(dump, columns)])
  {
    hide Run, Stored;
    RunSnoc(dump, db, cs, CreateTable(t, columns));
  }

  method FirstLoop(ghost dump: Dump, target: Schema, cur: Schema) returns (cs: seq<Command>)
    ensures NoEmptyTable(target) ==> Run(dump, cur, cs).Some?
    ensures Run(dump, cur, cs).Some? ==> Run(dump, cur, cs).value == FirstPass(dump, target, cur, target.Keys)
    ensures cs == [] <==> forall t :: t in target ==> t in cur && EquivalentColumns(target[t], cur[t])
    ensures Exactly(cs, FirstBy(target, cur, target.Keys))
  {
    cs := [];
    var todo := target.Keys;
    ghost var done: set<string> := {};
    assert FirstPass(dump, target, cur, {}) == cur;
    ExactlyNone(FirstBy(target, cur, done));
    hide FirstPass, Merge, Run, Apply, EquivalentColumns, Stored, Normal, Exactly, FirstBy, MergedBy;
    RunNothing(dump, cur);
    while todo != {}
      invariant done + todo == target.Keys && done !! todo
      invariant NoEmptyTable(target) ==> Run(dump, cur, cs).Some?
      invariant Run(dump, cur, cs).Some? ==> Run(dump, cur, cs).value == FirstPass(dump, target, cur, done)
      invariant cs == [] <==> forall t :: t in done ==> t in cur && EquivalentColumns(target[t], cur[t])
      invariant Exactly(cs, FirstBy(target, cur, done))
    {
      var t :| t in todo;
      ghost var before := FirstPass(dump, target, cur, done);
      FirstPassStep(dump, target, cur, done, t);
      if t !in cur {
        RunCreate(dump, cur, cs, t, target[t], before);
        FirstMore(cs, [CreateTable(t, target[t])], target, cur, done, t);
        cs := cs + [CreateTable(t, target[t])];
      } else {
        var more := MergeTable(dump, t, target[t], cur[t], before);
        FirstMore(cs, more, target, cur, done, t);
        RunAppend(dump, cur, cs, more);
        cs := cs + more;
      }
      done, todo := done + {t}, todo - {t};
    }
    assert done == target.Keys;
  }

  method SecondLoop(ghost dump: Dump, target: Schema, cur: Schema) returns (cs: seq<Command>)
    ensures var mid := FirstPass(dump, target, cur, target.Keys);
            && (NoEmptyTable(target) ==> Run(dump, mid, cs).Some?)
            && (Run(dump, mid, cs).Some? ==> Run(dump, mid, cs).value == SecondPass(dump, target, cur, cur.Keys))
    ensures cs == [] <==> forall t :: t in cur ==> t in target && cur[t].Keys <= target[t].Keys
    ensures Exactly(cs, SecondBy(target, cur, cur.Keys))
  {
    cs := [];
    var todo := cur.Keys;
    ghost var done: set<string> := {};
    ghost var mid := FirstPass(dump, target, cur, target.Keys);
    assert SecondPass(dump, target, cur, {}) == mid;
    ExactlyNone(SecondBy(target, cur, done));
    hide FirstPass, SecondPass, Run, Exactly, SecondBy, StrippedBy;
    RunNothing(dump, mid);
    while todo != {}
      invariant done + todo == cur.Keys && done !! todo
      invariant NoEmptyTable(target) ==> Run(dump, mid, cs).Some?
      invariant Run(dump, mid, cs).Some? ==> Run(dump, mid, cs).value == SecondPass(dump, target, cur, done)
      invariant cs == [] <==> forall t :: t in done ==> t in target && cur[t].Keys <= target[t].Keys
      invariant Exactly(cs, SecondBy(target, cur, done))
    {
      var t :| t in todo;
      ghost var before := SecondPass(dump, target, cur, done);
      SecondPassStep(dump, target, cur, done, t);
      if t !in target {
        RunSnoc(dump, mid, cs, DropTable(t));
        SecondMore(cs, [DropTable(t)], target, cur, done, t);
        cs := cs + [DropTable(t)];
      } else {
        var more := StripTable(dump, t, target[t], cur[t], before);
        SecondMore(cs, more, target, cur, done, t);
        RunAppend(dump, mid, cs, more);
        cs := cs + more;
      }
      done, todo := done + {t}, todo - {t};
    }
    assert done == cur.Keys;
  }

  /** Applying the emitted commands to the current schema, in whatever order the dictionaries were walked:
      from a schema without empty tables they go through if and only if the target has none either, and then
      they give the target up to normal form, and a second diff emits nothing, if and only if the texts sent
      come back from the database with the normal forms they were sent for.  For a file of definition lines and
      a database that prints them a second diff emits nothing, and the definitions reached are those of the
      file if and only if none that is added or modified has a comma in it and those left alone agree already. */
  method Converge(dump: Dump, target: Schema, cur: Schema) returns (cs: seq<Command>, again: seq<Command>)
    requires NoEmptyTable(cur)
    ensures Run(dump, cur, cs).Some? <==> NoEmptyTable(target)
    ensures Run(dump, cur, cs).Some? ==>
              && (Equivalent(Run(dump, cur, cs).value, target) <==> Settles(dump, target, cur))
              && (again == [] <==> Settles(dump, target, cur))
    ensures Run(dump, cur, cs).Some? && FileOfLines(target) && PrintsLines(dump) ==>
              again == [] && (Identical(target, Run(dump, cur, cs).value) <==> AllArrive(target, cur))
  {
    hide Run, SecondPass, Settles, FileOfLines, PrintsLines, Identical, AllArrive;
    cs := Compare(dump, target, cur);
    SecondPassIsTargetIff(dump, target, cur);
    again := Compare(dump, target, SecondPass(dump, target, cur, cur.Keys));
    if Run(dump, cur, cs).Some? {
      RunKeepsTablesFilled(dump, cur, cs);
      FilledTarget(dump, target, cur);
    }
    if FileOfLines(target) && PrintsLines(dump) {
      FileSettles(dump, target, cur);
      IdenticalIff(dump, target, cur);
    }
  }

  lemma FilledTarget(dump: Dump, target: Schema, cur: Schema)
    requires NoEmptyTable(SecondPass(dump, target, cur, cur.Keys))
    ensures NoEmptyTable(target)
  {
    hide SecondPass;
    SecondPassKeys(dump, target, cur);
    var end := SecondPass(dump, target, cur, cur.Keys);
    forall t | t in target ensures target[t] != map[] {
      assert end[t].Keys == target[t].Keys;
    }
  }
}
