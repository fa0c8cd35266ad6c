/** Reading git's NUL-separated listings into the map of changed paths. */
module GitStatus {
  import opened Options
  import opened Names
  import opened Receipts

  type Changes = map<string, ChangeKind>

  const NUL: char := '\0'

  predicate StartsWith(s: string, c: char) {
    s != "" && s[0] == c
  }

  // ---------- git diff --name-status -z ----------

  /** One record as git prints it; a rename or copy names two paths. */
  datatype DiffRecord =
    | Change(status: string, name: string)
    | Move(status: string, from: string, to: string)

  predicate IsMove(status: string) {
    StartsWith(status, 'R') || StartsWith(status, 'C')
  }

  predicate ValidRecord(r: DiffRecord) {
    r.status != "" && NUL !in r.status && (r.Move? <==> r.status[0] == 'R' || r.status[0] == 'C') &&
    match r
    case Change(_, name) => name != "" && NUL !in name
    case Move(_, from, to) => from != "" && NUL !in from && NUL !in to
  }

  function PrintRecord(r: DiffRecord): string {
    match r
    case Change(status, name) => status + [NUL] + (name + [NUL])
    case Move(status, from, to) => status + [NUL] + (from + [NUL] + (to + [NUL]))
  }

  function PrintRecords(rs: seq<DiffRecord>): string {
    if rs == [] then "" else PrintRecord(rs[0]) + PrintRecords(rs[1..])
  }

  function DiffKind(status: string): ChangeKind {
    if StartsWith(status, 'D') then Deleted else if StartsWith(status, 'A') then Added else Modified
  }

  /** What the records mean, one after the other. */
  function Recorded(rs: seq<DiffRecord>, paths: Changes): Changes {
    if rs == [] then paths
    else
      match rs[0]
      case Change(status, name) => Recorded(rs[1..], paths[name := DiffKind(status)])
      case Move(_, from, to) => Recorded(rs[1..], paths[from := Modified][to := Modified])
  }

  /** What parsing the separated parts yields. */
  function ParsedDiff(parts: seq<string>, paths: Changes): Changes {
    if |parts| < 2 then paths
    else if parts[0] == "" || parts[1] == "" then ParsedDiff(parts[2..], paths)
    else
      var after := paths[parts[1] := DiffKind(parts[0])];
      if IsMove(parts[0]) && |parts| > 2 then ParsedDiff(parts[3..], after[parts[2] := Modified])
      else ParsedDiff(parts[2..], after)
  }

  /** parseNameStatus. */
  method ParseNameStatus(data: string, paths: Changes) returns (r: Changes)
    ensures r == ParsedDiff(Split(data, NUL), paths)
  {
    var parts := Split(data, NUL);
    r := paths;
    var i := 0;
    assert parts[0..] == parts;
    while i + 1 < |parts|
      invariant 0 <= i <= |parts|
      invariant ParsedDiff(parts, paths) == ParsedDiff(parts[i..], r)
    {
      var status, name := parts[i], parts[i + 1];
      assert parts[i..][2..] == parts[i + 2..];
      i := i + 2;
      if status == "" || name == "" {
        continue;
      }
      if StartsWith(status, 'D') {
        r := r[name := Deleted];
      } else if StartsWith(status, 'A') {
        r := r[name := Added];
      } else {
        r := r[name := Modified];
      }
      if IsMove(status) {
        if i < |parts| {
          name := parts[i];
          assert parts[i - 2..][3..] == parts[i + 1..];
          i := i + 1;
          r := r[name := Modified];
        }
      }
    }
  }

  function Parts(r: DiffRecord): seq<string> {
    match r
    case Change(status, name) => [status, name]
    case Move(status, from, to) => [status, from, to]
  }

  lemma TwoFields(a: string, b: string, tail: string)
    requires NUL !in a && NUL !in b
    ensures Split(a + [NUL] + (b + [NUL] + tail), NUL) == [a, b] + Split(tail, NUL)
  {
    SplitHead(a, b + [NUL] + tail, NUL);
    SplitHead(b, tail, NUL);
  }

  lemma ThreeFields(a: string, b: string, c: string, tail: string)
    requires NUL !in a && NUL !in b && NUL !in c
    ensures Split(a + [NUL] + (b + [NUL] + (c + [NUL] + tail)), NUL) == [a, b, c] + Split(tail, NUL)
  {
    SplitHead(a, b + [NUL] + (c + [NUL] + tail), NUL);
    TwoFields(b, c, tail);
  }

  /** Separating a printed record gives its fields, then whatever follows. */
  lemma PrintedRecordSplits(r: DiffRecord, tail: string)
    requires ValidRecord(r)
    ensures Split(PrintRecord(r) + tail, NUL) == Parts(r) + Split(tail, NUL)
  {
    match r {
      case Change(status, name) =>
        assert PrintRecord(r) + tail == status + [NUL] + (name + [NUL] + tail);
        TwoFields(status, name, tail);
      case Move(status, from, to) =>
        assert PrintRecord(r) + tail == status + [NUL] + (from + [NUL] + (to + [NUL] + tail));
        ThreeFields(status, from, to, tail);
    }
  }

  /** The parser reads one record's fields as that record and goes on after them. */
  lemma {:induction false} ParsedRecord(r: DiffRecord, rest: seq<string>, paths: Changes)
    requires ValidRecord(r)
    ensures ParsedDiff(Parts(r) + rest, paths) == ParsedDiff(rest, Recorded([r], paths))
  {
    assert (Parts(r) + rest)[|Parts(r)|..] == rest;
  }

  /** Parsing what git prints gives back the records, whatever spaces their names contain. */
  lemma {:induction false} ParseInvertsDiff(rs: seq<DiffRecord>, paths: Changes)
    requires forall r :: r in rs ==> ValidRecord(r)
    ensures ParsedDiff(Split(PrintRecords(rs), NUL), paths) == Recorded(rs, paths)
  {
    if rs != [] {
      PrintedRecordSplits(rs[0], PrintRecords(rs[1..]));
      ParsedRecord(rs[0], Split(PrintRecords(rs[1..]), NUL), paths);
      ParseInvertsDiff(rs[1..], Recorded([rs[0]], paths));
    }
  }

  // ---------- what a listing of differences says of a path ----------

  predicate NamesPath(r: DiffRecord, p: string) {
    match r
    case Change(_, name) => name == p
    case Move(_, from, to) => from == p || to == p
  }

  predicate NoneNames(rs: seq<DiffRecord>, p: string) {
    forall r :: r in rs ==> !NamesPath(r, p)
  }

  /** The i-th record is the last one that names the path. */
  predicate LastNames(rs: seq<DiffRecord>, p: string, i: nat) {
    i < |rs| && NamesPath(rs[i], p) && NoneNames(rs[i + 1..], p)
  }

  /** What a record says of the paths it names. */
  predicate AsNamed(r: DiffRecord, kind: ChangeKind) {
    (kind == Deleted <==> r.Change? && "D" <= r.status) &&
    (kind == Added <==> r.Change? && "A" <= r.status) &&
    (kind == Modified <==> r.Move? || !("D" <= r.status || "A" <= r.status))
  }

  lemma FirstRecord(rs: seq<DiffRecord>, paths: Changes)
    requires rs != []
    ensures Recorded(rs, paths) == Recorded(rs[1..], Recorded([rs[0]], paths))
  {
    assert [rs[0]][1..] == [];
  }

  /** A path no record names is as it was. */
  lemma {:induction false} UnnamedStays(rs: seq<DiffRecord>, paths: Changes, p: string)
    requires NoneNames(rs, p)
    ensures (p in Recorded(rs, paths) <==> p in paths) && (p in paths ==> Recorded(rs, paths)[p] == paths[p])
  {
    if rs != [] {
      FirstRecord(rs, paths);
      assert rs[0] in rs && [rs[0]][1..] == [];
      UnnamedStays(rs[1..], Recorded([rs[0]], paths), p);
    }
  }

  lemma {:induction false} LastNamedDecides(rs: seq<DiffRecord>, paths: Changes, p: string, i: nat)
    requires LastNames(rs, p, i)
    ensures p in Recorded(rs, paths)
    ensures Recorded(rs, paths)[p] == if rs[i].Change? then DiffKind(rs[i].status) else Modified
  {
    FirstRecord(rs, paths);
    if i == 0 {
      assert [rs[0]][1..] == [];
      UnnamedStays(rs[1..], Recorded([rs[0]], paths), p);
    } else {
      assert rs[1..][i..] == rs[i + 1..];
      LastNamedDecides(rs[1..], Recorded([rs[0]], paths), p, i - 1);
    }
  }

  /**
    Of what git prints, the last record that names a path says what became of it: deleted if its status
    begins with D, added if it begins with A, modified if it is any other change or either end of a move.
    A path no record names is as it was.
   */
  lemma DiffSays(rs: seq<DiffRecord>, paths: Changes, p: string)
    requires forall r :: r in rs ==> ValidRecord(r)
    ensures var m := ParsedDiff(Split(PrintRecords(rs), NUL), paths);
      (NoneNames(rs, p) ==> (p in m <==> p in paths) && (p in paths ==> m[p] == paths[p])) &&
      forall i: nat :: LastNames(rs, p, i) ==> p in m && AsNamed(rs[i], m[p])
  {
    ParseInvertsDiff(rs, paths);
    if NoneNames(rs, p) {
      UnnamedStays(rs, paths, p);
    }
    forall i: nat | LastNames(rs, p, i)
      ensures p in Recorded(rs, paths)
      ensures Recorded(rs, paths)[p] == if rs[i].Change? then DiffKind(rs[i].status) else Modified
    {
      LastNamedDecides(rs, paths, p, i);
    }
  }

  // ---------- git status --porcelain=v1 -z ----------

  /** A status entry: two status letters, a path, and the old path of a rename or copy. */
  datatype StatusRecord = StatusRecord(x: char, y: char, name: string, origin: Option<string>)

  predicate Either(x: char, y: char, c: char) {
    x == c || y == c
  }

  predicate HasOrigin(x: char, y: char) {
    Either(x, y, 'R') || Either(x, y, 'C')
  }

  predicate ValidStatus(r: StatusRecord) {
    r.x != NUL && r.y != NUL && r.name != "" && NUL !in r.name &&
    (r.origin.Some? <==> r.x == 'R' || r.y == 'R' || r.x == 'C' || r.y == 'C') && (r.origin.Some? ==> NUL !in r.origin.value)
  }

  function PrintStatus(r: StatusRecord): string {
    [r.x, r.y, ' '] + r.name + [NUL] + if r.origin.Some? then r.origin.value + [NUL] else ""
  }

  function PrintStatuses(rs: seq<StatusRecord>): string {
    if rs == [] then "" else PrintStatus(rs[0]) + PrintStatuses(rs[1..])
  }

  function StatusKind(x: char, y: char): ChangeKind {
    if x == '?' && y == '?' then Untracked
    else if Either(x, y, 'D') then Deleted
    else if Either(x, y, 'A') then Added
    else Modified
  }

  function Reported(rs: seq<StatusRecord>, paths: Changes): Changes {
    if rs == [] then paths
    else
      var after := paths[rs[0].name := StatusKind(rs[0].x, rs[0].y)];
      Reported(rs[1..], if rs[0].origin.Some? then after[rs[0].origin.value := Modified] else after)
  }

  function ParsedStatus(parts: seq<string>, paths: Changes): Changes {
    if parts == [] then paths
    else
      var entry := parts[0];
      if |entry| < 4 || entry[2] != ' ' then ParsedStatus(parts[1..], paths)
      else
        var after := paths[entry[3..] := StatusKind(entry[0], entry[1])];
        if HasOrigin(entry[0], entry[1]) && |parts| > 1 then ParsedStatus(parts[2..], after[parts[1] := Modified])
        else ParsedStatus(parts[1..], after)
  }

  /** parsePorcelain. */
  method ParsePorcelain(data: string, paths: Changes) returns (r: Changes)
    ensures r == ParsedStatus(Split(data, NUL), paths)
  {
    var parts := Split(data, NUL);
    r := paths;
    var i := 0;
    assert parts[0..] == parts;
    while i < |parts|
      invariant 0 <= i <= |parts|
      invariant ParsedStatus(parts, paths) == ParsedStatus(parts[i..], r)
    {
      var entry := parts[i];
      assert parts[i..][1..] == parts[i + 1..];
      if |entry| >= 4 && entry[2] == ' ' {
        var x, y, name := entry[0], entry[1], entry[3..];
        var kind := Modified;
        if x == '?' && y == '?' {
          kind := Untracked;
        } else if x == 'D' || y == 'D' {
          kind := Deleted;
        } else if x == 'A' || y == 'A' {
          kind := Added;
        }
        r := r[name := kind];
        if HasOrigin(x, y) && i + 1 < |parts| {
          assert parts[i..][2..] == parts[i + 2..];
          i := i + 1;
          r := r[parts[i] := Modified];
        }
      }
      i := i + 1;
    }
  }

  function StatusParts(r: StatusRecord): seq<string> {
    [[r.x, r.y, ' '] + r.name] + if r.origin.Some? then [r.origin.value] else []
  }

  lemma PrintedWithOrigin(entry: string, origin: string, tail: string)
    ensures entry + [NUL] + (origin + [NUL]) + tail == entry + [NUL] + (origin + [NUL] + tail)
  {
  }

  lemma PrintedStatusSplits(r: StatusRecord, tail: string)
    requires ValidStatus(r)
    ensures Split(PrintStatus(r) + tail, NUL) == StatusParts(r) + Split(tail, NUL)
  {
    var entry := [r.x, r.y, ' '] + r.name;
    if r.origin.Some? {
      PrintedWithOrigin(entry, r.origin.value, tail);
      TwoFields(entry, r.origin.value, tail);
    } else {
      assert PrintStatus(r) + tail == entry + [NUL] + tail;
      SplitHead(entry, tail, NUL);
    }
  }

  lemma {:induction false} ParsedStatusRecord(r: StatusRecord, rest: seq<string>, paths: Changes)
    requires ValidStatus(r)
    ensures ParsedStatus(StatusParts(r) + rest, paths) == ParsedStatus(rest, Reported([r], paths))
  {
    var parts := StatusParts(r);
    assert parts[0][3..] == r.name;
    assert (parts + rest)[|parts|..] == rest;
  }

  /** The old path of a rename is never read as an entry of its own, and no name is trimmed. */
  lemma {:induction false} ParseInvertsStatus(rs: seq<StatusRecord>, paths: Changes)
    requires forall r :: r in rs ==> ValidStatus(r)
    ensures ParsedStatus(Split(PrintStatuses(rs), NUL), paths) == Reported(rs, paths)
  {
    if rs != [] {
      PrintedStatusSplits(rs[0], PrintStatuses(rs[1..]));
      ParsedStatusRecord(rs[0], Split(PrintStatuses(rs[1..]), NUL), paths);
      ParseInvertsStatus(rs[1..], Reported([rs[0]], paths));
    } else {
      assert Split("", NUL)[1..] == [];
    }
  }

  // ---------- what a status listing says of a path ----------

  predicate StatusNames(r: StatusRecord, p: string) {
    r.name == p || r.origin == Some(p)
  }

  predicate NoStatusNames(rs: seq<StatusRecord>, p: string) {
    forall r :: r in rs ==> !StatusNames(r, p)
  }

  predicate LastStatus(rs: seq<StatusRecord>, p: string, i: nat) {
    i < |rs| && StatusNames(rs[i], p) && NoStatusNames(rs[i + 1..], p)
  }

  /** What an entry says of a path it names. */
  predicate AsReported(r: StatusRecord, p: string, kind: ChangeKind) {
    (kind == Untracked <==> r.origin != Some(p) && r.x == '?' && r.y == '?') &&
    (kind == Deleted <==> r.origin != Some(p) && (r.x == 'D' || r.y == 'D')) &&
    (kind == Added <==> r.origin != Some(p) && r.x != 'D' && r.y != 'D' && (r.x == 'A' || r.y == 'A')) &&
    (kind == Modified <==> r.origin == Some(p) || (r.x !in "DA" && r.y !in "DA" && !(r.x == '?' && r.y == '?')))
  }

  lemma FirstStatus(rs: seq<StatusRecord>, paths: Changes)
    requires rs != []
    ensures Reported(rs, paths) == Reported(rs[1..], Reported([rs[0]], paths))
  {
    assert [rs[0]][1..] == [];
  }

  lemma {:induction false} UnreportedStays(rs: seq<StatusRecord>, paths: Changes, p: string)
    requires NoStatusNames(rs, p)
    ensures (p in Reported(rs, paths) <==> p in paths) && (p in paths ==> Reported(rs, paths)[p] == paths[p])
  {
    if rs != [] {
      FirstStatus(rs, paths);
      assert rs[0] in rs && [rs[0]][1..] == [];
      UnreportedStays(rs[1..], Reported([rs[0]], paths), p);
    }
  }

  lemma {:induction false} LastStatusDecides(rs: seq<StatusRecord>, paths: Changes, p: string, i: nat)
    requires LastStatus(rs, p, i)
    ensures p in Reported(rs, paths)
    ensures Reported(rs, paths)[p] == if rs[i].origin == Some(p) then Modified else StatusKind(rs[i].x, rs[i].y)
  {
    FirstStatus(rs, paths);
    if i == 0 {
      assert [rs[0]][1..] == [];
      UnreportedStays(rs[1..], Reported([rs[0]], paths), p);
    } else {
      assert rs[1..][i..] == rs[i + 1..];
      LastStatusDecides(rs[1..], Reported([rs[0]], paths), p, i - 1);
    }
  }

  /**
    The last entry that names a path says what became of it: two question marks untracked, else a D in
    either column deleted, else an A added, else modified; and modified if it is the entry's old path. A
    path no entry names is as it was.
   */
  lemma StatusSays(rs: seq<StatusRecord>, paths: Changes, p: string)
    requires forall r :: r in rs ==> ValidStatus(r)
    ensures var m := ParsedStatus(Split(PrintStatuses(rs), NUL), paths);
      (NoStatusNames(rs, p) ==> (p in m <==> p in paths) && (p in paths ==> m[p] == paths[p])) &&
      forall i: nat :: LastStatus(rs, p, i) ==> p in m && AsReported(rs[i], p, m[p])
  {
    ParseInvertsStatus(rs, paths);
    if NoStatusNames(rs, p) {
      UnreportedStays(rs, paths, p);
    }
    forall i: nat | LastStatus(rs, p, i)
      ensures p in Reported(rs, paths)
      ensures Reported(rs, paths)[p] == if rs[i].origin == Some(p) then Modified else StatusKind(rs[i].x, rs[i].y)
    {
      LastStatusDecides(rs, paths, p, i);
    }
  }
}
