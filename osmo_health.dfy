/**
 * The health classification of the status collector (`Osmo.getStatus` in
 * ui/osmo.py): every expected process starts as "not found" with count 0; each
 * observed row whose CMD equals an expected command line bumps that entry, and
 * each row that matches no expected command gets a placeholder entry of its own.
 */
module OsmoHealth {
  import opened Wrappers
  import opened PyStr
  import opened OsmoTable

  datatype Status = Running | NotFound {
    /** The string stored in the record: "running" or "not found". */
    function Text(): string {
      if Running? then "running" else "not found"
    }
  }

  datatype HealthRecord = HealthRecord(cmd: string, status: Status, expected: bool, count: nat)

  /**
   * The `healthdata` dictionary: `entries` maps a name to its record and `keys`
   * lists the names in the order they were first inserted.
   */
  datatype Health = Health(keys: seq<string>, entries: map<string, HealthRecord>)

  ghost predicate Distinct(s: seq<string>) {
    forall i, j :: 0 <= i < j < |s| ==> s[i] != s[j]
  }

  /** Every name is listed once, and the listed names are exactly those with a record. */
  ghost predicate Valid(h: Health) {
    Distinct(h.keys) && forall k :: k in h.entries <==> k in h.keys
  }

  /** `h[k] = v`: a new name goes to the end of the order, an existing one keeps its place. */
  function Put(h: Health, k: string, v: HealthRecord): (r: Health)
    ensures Valid(h) ==> Valid(r)
  {
    Health(if k in h.entries then h.keys else h.keys + [k], h.entries[k := v])
  }

  /** The expected processes, as (name, command line) pairs in the order of the dictionary literal. */
  type Table = seq<(string, string)>

  const ExpectedProcesses: Table := [
    ("entrypoint", "bash /configs/entrypoint.sh"),
    ("osmo-bsc", "osmo-bsc -c /etc/osmocom/osmo-bsc.cfg"),
    ("osmo-msc", "osmo-msc -c /etc/osmocom/osmo-msc.cfg"),
    ("osmo-hlr", "osmo-hlr -c /etc/osmocom/osmo-hlr.cfg"),
    ("osmo-mgw", "osmo-mgw -c /etc/osmocom/osmo-mgw.cfg"),
    ("osmo-stp", "osmo-stp -c /etc/osmocom/osmo-stp.cfg"),
    ("osmo-sgsn", "osmo-sgsn -c /etc/osmocom/osmo-sgsn.cfg"),
    ("osmo-ggsn", "osmo-ggsn -c /etc/osmocom/osmo-ggsn.cfg"),
    ("osmo-pcu", "osmo-pcu -c /etc/osmocom/osmo-pcu.cfg"),
    ("osmo-cbc", "osmo-cbc -c /etc/osmocom/osmo-cbc.cfg"),
    ("osmo-sip-connector", "osmo-sip-connector -c /etc/osmocom/osmo-sip-connector.cfg"),
    ("asterisk", "asterisk"),
    ("osmo-trx-lms", "osmo-trx-lms -C /etc/osmocom/osmo-trx-lms.cfg"),
    ("osmo-bts-trx", "osmo-bts-trx -c /etc/osmocom/osmo-bts.cfg"),
    ("dnsmasq (sgsn)", "dnsmasq -C /configs/dnsmasq/sgsn.conf"),
    ("dnsmasq (apn0)", "dnsmasq -C /configs/dnsmasq/apn0.conf"),
    ("sleep", "sleep infinity")
  ]

  function Names(t: Table): (names: seq<string>)
    ensures |names| == |t| && forall i :: 0 <= i < |t| ==> names[i] == t[i].0
  {
    if t == [] then [] else Names(t[..|t| - 1]) + [t[|t| - 1].0]
  }

  /** A dictionary has each name once. */
  ghost predicate DistinctNames(t: Table) {
    forall i, j :: 0 <= i < j < |t| ==> t[i].0 != t[j].0
  }

  predicate Expects(t: Table, cmd: string) {
    exists i :: 0 <= i < |t| && t[i].1 == cmd
  }

  // ---------------------------------------------------------------------------
  // The steps of getStatus

  /** The first loop: every expected name, not found, count 0, expected. */
  function Init(t: Table): (h: Health)
    ensures Valid(h)
    ensures forall i :: 0 <= i < |t| ==> t[i].0 in h.entries
  {
    if t == [] then Health([], map[])
    else
      var prefix := t[..|t| - 1];
      assert forall i :: 0 <= i < |prefix| ==> prefix[i] == t[i];
      Put(Init(prefix), t[|t| - 1].0, HealthRecord(t[|t| - 1].1, NotFound, true, 0))
  }

  /** A matching row marks the record running and adds one to its count. */
  function Increment(r: HealthRecord): HealthRecord {
    r.(status := Running, count := r.count + 1)
  }

  /**
   * The inner loop for one row with command `cmd`: every entry of `t` whose
   * command equals `cmd` is incremented (there is no `break`).
   */
  function Bump(h: Health, t: Table, cmd: string): (r: Health)
    requires forall i :: 0 <= i < |t| ==> t[i].0 in h.entries
    ensures r.keys == h.keys && r.entries.Keys == h.entries.Keys
    decreases |t|
  {
    if t == [] then h
    else
      var prefix := t[..|t| - 1];
      assert forall i :: 0 <= i < |prefix| ==> prefix[i] == t[i];
      var h1 := Bump(h, prefix, cmd);
      var (name, c) := t[|t| - 1];
      if c == cmd then Put(h1, name, Increment(h1.entries[name])) else h1
  }

  lemma BumpSnoc(h: Health, t: Table, j: nat, cmd: string)
    requires j < |t| && forall i :: 0 <= i < |t| ==> t[i].0 in h.entries
    ensures var prev := Bump(h, t[..j], cmd);
      Bump(h, t[..j + 1], cmd)
      == if t[j].1 == cmd then Put(prev, t[j].0, Increment(prev.entries[t[j].0])) else prev
  {
    assert t[..j + 1][..j] == t[..j];
  }

  /** A command no entry expects leaves the health data as it was. */
  lemma {:induction false} BumpUnexpected(h: Health, t: Table, cmd: string)
    requires forall i :: 0 <= i < |t| ==> t[i].0 in h.entries
    requires !Expects(t, cmd)
    ensures Bump(h, t, cmd) == h
    decreases |t|
  {
    if t != [] {
      var prefix := t[..|t| - 1];
      assert forall i :: 0 <= i < |prefix| ==> prefix[i] == t[i];
      assert forall i :: 0 <= i < |prefix| ==> prefix[i].1 != cmd;
      BumpUnexpected(h, prefix, cmd);
    }
  }

  /** Bumping leaves the records of names outside the table as they were. */
  lemma {:induction false} BumpOthers(h: Health, t: Table, cmd: string, k: string)
    requires forall i :: 0 <= i < |t| ==> t[i].0 in h.entries
    requires k in h.entries && k !in Names(t)
    ensures Bump(h, t, cmd).entries[k] == h.entries[k]
    decreases |t|
  {
    if t != [] {
      var prefix := t[..|t| - 1];
      assert forall i :: 0 <= i < |prefix| ==> prefix[i] == t[i];
      assert Names(t) == Names(prefix) + [t[|t| - 1].0];
      BumpOthers(h, prefix, cmd, k);
    }
  }

  /** With distinct names, bumping increments exactly the entries whose command is `cmd`. */
  lemma {:induction false} BumpEntries(h: Health, t: Table, cmd: string, i: nat)
    requires forall i :: 0 <= i < |t| ==> t[i].0 in h.entries
    requires DistinctNames(t) && i < |t|
    ensures Bump(h, t, cmd).entries[t[i].0]
         == if t[i].1 == cmd then Increment(h.entries[t[i].0]) else h.entries[t[i].0]
    decreases |t|
  {
    var prefix := t[..|t| - 1];
    assert forall i :: 0 <= i < |prefix| ==> prefix[i] == t[i];
    if i < |t| - 1 {
      BumpEntries(h, prefix, cmd, i);
    } else {
      assert forall j :: 0 <= j < |prefix| ==> Names(prefix)[j] != t[i].0;
      BumpOthers(h, prefix, cmd, t[i].0);
    }
  }

  /** The placeholder name of the k-th row that matches no expected command. */
  function SyntheticName(k: nat): string {
    "???? (" + NatToString(k) + ")"
  }

  /** The commands, in order, that no entry of `t` expects. */
  function Unmatched(t: Table, cmds: seq<string>): (u: seq<string>)
    ensures |u| <= |cmds|
  {
    if cmds == [] then []
    else
      var prev := Unmatched(t, cmds[..|cmds| - 1]);
      var cmd := cmds[|cmds| - 1];
      if Expects(t, cmd) then prev else prev + [cmd]
  }

  /** The health data after the rows with commands `cmds` have been processed, in order. */
  function Classify(t: Table, cmds: seq<string>): (h: Health)
    ensures forall i :: 0 <= i < |t| ==> t[i].0 in h.entries
    decreases |cmds|
  {
    if cmds == [] then Init(t)
    else
      var prefix := cmds[..|cmds| - 1];
      var prev := Classify(t, prefix);
      var cmd := cmds[|cmds| - 1];
      if Expects(t, cmd) then Bump(prev, t, cmd)
      else Put(prev, SyntheticName(|Unmatched(t, prefix)| + 1), HealthRecord(cmd, Running, false, 1))
  }

  /** Every name is listed once and every listed name has a record, however many rows were read. */
  lemma {:induction false} ClassifyValid(t: Table, cmds: seq<string>)
    ensures Valid(Classify(t, cmds))
    decreases |cmds|
  {
    if cmds != [] {
      ClassifyValid(t, cmds[..|cmds| - 1]);
    }
  }

  /**
   * The CMD value of every row, in order, or `None` when some row has no CMD
   * column (`row["CMD"]` raises KeyError on the first such row).
   */
  function Cmds(rows: seq<Row>): Option<seq<string>> {
    if rows == [] then Some([])
    else match Cmds(rows[..|rows| - 1])
      case None => None
      case Some(prefix) =>
        if "CMD" in rows[|rows| - 1] then Some(prefix + [rows[|rows| - 1]["CMD"]]) else None
  }

  /** `Cmds` fails exactly when some row lacks CMD, and otherwise lists every row's CMD. */
  lemma {:induction false} CmdsShape(rows: seq<Row>)
    ensures Cmds(rows).Some? <==> forall i :: 0 <= i < |rows| ==> "CMD" in rows[i]
    ensures Cmds(rows).Some? ==>
      |Cmds(rows).value| == |rows| && forall i :: 0 <= i < |rows| ==> Cmds(rows).value[i] == rows[i]["CMD"]
    decreases |rows|
  {
    if rows != [] {
      var prefix := rows[..|rows| - 1];
      CmdsShape(prefix);
      assert forall i :: 0 <= i < |prefix| ==> prefix[i] == rows[i];
    }
  }

  /** One row without CMD makes the classification, and so the whole of `getStatus`, fail with KeyError. */
  lemma MissingCmd(t: Table, rows: seq<Row>, i: nat)
    requires i < |rows| && "CMD" !in rows[i]
    ensures Cmds(rows).None? && Classified(t, rows) == Err(MissingKey("CMD"))
  {
    CmdsShape(rows);
  }

  /** `row["CMD"]` raises KeyError on a row without a CMD column; otherwise the rows are classified. */
  function Classified(t: Table, rows: seq<Row>): Result<Health, Error> {
    match Cmds(rows)
    case None => Err(MissingKey("CMD"))
    case Some(cmds) => Ok(Classify(t, cmds))
  }

  /** What `getStatus` returns, given the expected table and the listing command's outcome. */
  function HealthOf(t: Table, exitOk: bool, stdout: string): Result<Health, Error> {
    match StatusRows(exitOk, stdout)
    case Err(e) => Err(e)
    case Ok(rows) => Classified(t, rows)
  }

  method GetStatus(t: Table, exitOk: bool, stdout: string) returns (r: Result<Health, Error>)
    ensures r == HealthOf(t, exitOk, stdout)
  {
    var data := ReadStatus(exitOk, stdout);
    if data.Err? {
      return Err(data.error);
    }
    r := ClassifyRows(t, data.value);
  }

  lemma InitSnoc(t: Table, j: nat)
    requires j < |t|
    ensures Init(t[..j + 1]) == Put(Init(t[..j]), t[j].0, HealthRecord(t[j].1, NotFound, true, 0))
  {
    assert t[..j + 1][..j] == t[..j];
  }

  /**
   * One round of the row loop: after row `i` is matched (and given a
   * placeholder when nothing expects it), the health data and the placeholder
   * counter are those of the first `next` rows.
   */
  lemma RowStep(t: Table, rows: seq<Row>, i: nat, next: nat, prev: Health, counted: nat, h: Health, c: nat)
    requires i < |rows| && next == i + 1 && "CMD" in rows[i] && Cmds(rows[..i]).Some?
    requires prev == Classify(t, Cmds(rows[..i]).value) && counted == |Unmatched(t, Cmds(rows[..i]).value)|
    requires Expects(t, rows[i]["CMD"]) ==> h == Bump(prev, t, rows[i]["CMD"]) && c == counted
    requires !Expects(t, rows[i]["CMD"]) ==>
      c == counted + 1 && h == Put(Bump(prev, t, rows[i]["CMD"]), SyntheticName(c), HealthRecord(rows[i]["CMD"], Running, false, 1))
    ensures Cmds(rows[..next]).Some?
    ensures h == Classify(t, Cmds(rows[..next]).value) && c == |Unmatched(t, Cmds(rows[..next]).value)|
  {
    assert rows[..next][..i] == rows[..i];
    assert Cmds(rows[..next]) == Some(Cmds(rows[..i]).value + [rows[i]["CMD"]]);
    CmdsStep(t, Cmds(rows[..i]).value, rows[i]["CMD"], Cmds(rows[..next]).value);
    if !Expects(t, rows[i]["CMD"]) {
      BumpUnexpected(prev, t, rows[i]["CMD"]);
    }
  }

  lemma CmdsStep(t: Table, cmds: seq<string>, cmd: string, after: seq<string>)
    requires after == cmds + [cmd]
    ensures Classify(t, after)
         == (if Expects(t, cmd) then Bump(Classify(t, cmds), t, cmd)
             else Put(Classify(t, cmds), SyntheticName(|Unmatched(t, cmds)| + 1), HealthRecord(cmd, Running, false, 1)))
    ensures |Unmatched(t, after)| == |Unmatched(t, cmds)| + (if Expects(t, cmd) then 0 else 1)
  {
    assert after[..|after| - 1] == cmds;
  }

  /** The loops of `getStatus` that fill `healthdata`. */
  method ClassifyRows(t: Table, rows: seq<Row>) returns (r: Result<Health, Error>)
    ensures r == Classified(t, rows)
  {
    var healthdata := InitHealth(t);
    var notfoundcounter := 0;
    var i := 0;
    while i < |rows|
      invariant i <= |rows| && Cmds(rows[..i]).Some?
      invariant healthdata == Classify(t, Cmds(rows[..i]).value)
      invariant notfoundcounter == |Unmatched(t, Cmds(rows[..i]).value)|
    {
      if "CMD" !in rows[i] {
        MissingCmd(t, rows, i);
        return Err(MissingKey("CMD"));
      }
      var cmd := rows[i]["CMD"];
      var found;
      ghost var cur, prev, counted := i, healthdata, notfoundcounter;
      healthdata, found := MatchRow(healthdata, t, cmd);
      if !found {
        notfoundcounter := notfoundcounter + 1;
        healthdata := Put(healthdata, SyntheticName(notfoundcounter), HealthRecord(cmd, Running, false, 1));
      }
      i := i + 1;
      RowStep(t, rows, cur, i, prev, counted, healthdata, notfoundcounter);
    }
    assert rows[..|rows|] == rows;
    return Ok(healthdata);
  }

  /** The first loop of `getStatus`: a "not found" record for every expected name. */
  method InitHealth(t: Table) returns (healthdata: Health)
    ensures healthdata == Init(t)
  {
    healthdata := Health([], map[]);
    for j := 0 to |t|
      invariant healthdata == Init(t[..j])
    {
      var (name, cmd) := t[j];
      InitSnoc(t, j);
      healthdata := Put(healthdata, name, HealthRecord(cmd, NotFound, true, 0));
    }
    assert t[..|t|] == t;
  }

  /** The inner loop of `getStatus` for one row: bump every entry whose command is `cmd`, and say whether any was. */
  method MatchRow(h: Health, t: Table, cmd: string) returns (healthdata: Health, found: bool)
    requires forall i :: 0 <= i < |t| ==> t[i].0 in h.entries
    ensures healthdata == Bump(h, t, cmd) && found == Expects(t, cmd)
  {
    healthdata := h;
    found := false;
    for j := 0 to |t|
      invariant found == Expects(t[..j], cmd)
      invariant healthdata == Bump(h, t[..j], cmd)
    {
      var (name, c) := t[j];
      BumpSnoc(h, t, j, cmd);
      assert t[..j + 1][..j] == t[..j];
      if cmd == c {
        healthdata := Put(healthdata, name, Increment(healthdata.entries[name]));
        found := true;
      }
    }
    assert t[..|t|] == t;
  }

  // ---------------------------------------------------------------------------
  // Properties of getStatus

  /** No expected name has the form of a placeholder name. */
  ghost predicate NoSyntheticNames(t: Table) {
    forall i, k: nat :: 0 <= i < |t| ==> t[i].0 != SyntheticName(k)
  }

  /** The placeholder names "???? (1)", ..., "???? (n)", in order. */
  function Placeholders(n: nat): (s: seq<string>)
    ensures |s| == n && forall k :: 0 <= k < n ==> s[k] == SyntheticName(k + 1)
  {
    if n == 0 then [] else Placeholders(n - 1) + [SyntheticName(n)]
  }

  /** Different counters give different placeholder names. */
  lemma SyntheticNameInjective(a: nat, b: nat)
    ensures SyntheticName(a) == SyntheticName(b) <==> a == b
  {
    if SyntheticName(a) == SyntheticName(b) {
      var sa, sb := NatToString(a), NatToString(b);
      assert sa == SyntheticName(a)[6..6 + |sa|];
      assert sb == SyntheticName(b)[6..6 + |sb|];
      NatToStringInjective(a, b);
    }
  }

  /** The first loop lists the expected names in table order, each not found with count 0. */
  lemma {:induction false} InitShape(t: Table)
    requires DistinctNames(t)
    ensures Init(t).keys == Names(t)
    ensures forall i :: 0 <= i < |t| ==> Init(t).entries[t[i].0] == HealthRecord(t[i].1, NotFound, true, 0)
  {
    InitKeys(t);
    forall i | 0 <= i < |t| ensures Init(t).entries[t[i].0] == HealthRecord(t[i].1, NotFound, true, 0) {
      InitEntry(t, i);
    }
  }

  lemma {:induction false} InitKeys(t: Table)
    requires DistinctNames(t)
    ensures Init(t).keys == Names(t)
    decreases |t|
  {
    if t != [] {
      var prefix := t[..|t| - 1];
      assert forall i :: 0 <= i < |prefix| ==> prefix[i] == t[i];
      InitKeys(prefix);
      assert t[|t| - 1].0 !in Names(prefix);
    }
  }

  lemma {:induction false} InitEntry(t: Table, i: nat)
    requires DistinctNames(t) && i < |t|
    ensures Init(t).entries[t[i].0] == HealthRecord(t[i].1, NotFound, true, 0)
    decreases |t|
  {
    if i < |t| - 1 {
      assert t[..|t| - 1][i] == t[i];
      assert forall a, b :: 0 <= a < b < |t| - 1 ==> t[..|t| - 1][a] == t[a] && t[..|t| - 1][b] == t[b];
      InitEntry(t[..|t| - 1], i);
      assert t[i].0 != t[|t| - 1].0;
    }
  }

  /**
   * Every expected entry keeps its command and stays expected; its count is the
   * number of rows whose command equals its command exactly, and it is running
   * exactly when that count is at least 1.
   */
  lemma {:induction false} ClassifyExpected(t: Table, cmds: seq<string>, i: nat)
    requires DistinctNames(t) && NoSyntheticNames(t) && i < |t|
    ensures var n := multiset(cmds)[t[i].1];
      Classify(t, cmds).entries[t[i].0]
      == HealthRecord(t[i].1, if n >= 1 then Running else NotFound, true, n)
    decreases |cmds|
  {
    if cmds == [] {
      InitShape(t);
    } else {
      var prefix := cmds[..|cmds| - 1];
      var cmd := cmds[|cmds| - 1];
      assert cmds == prefix + [cmd];
      ClassifyExpected(t, prefix, i);
      if Expects(t, cmd) {
        BumpEntries(Classify(t, prefix), t, cmd, i);
      } else {
        assert t[i].0 != SyntheticName(|Unmatched(t, prefix)| + 1);
      }
    }
  }

  /**
   * The k-th row that matches no expected command, counting from 1 in row
   * order, has the entry "???? (k)": its own command, running, not expected,
   * count 1.
   */
  lemma {:induction false} ClassifyUnexpected(t: Table, cmds: seq<string>, k: nat)
    requires NoSyntheticNames(t)
    requires 1 <= k <= |Unmatched(t, cmds)|
    ensures SyntheticName(k) in Classify(t, cmds).entries
    ensures Classify(t, cmds).entries[SyntheticName(k)] == HealthRecord(Unmatched(t, cmds)[k - 1], Running, false, 1)
    decreases |cmds|
  {
    var prefix := cmds[..|cmds| - 1];
    if k <= |Unmatched(t, prefix)| {
      ClassifyUnexpected(t, prefix, k);
    }
    UnexpectedStep(t, prefix, cmds[|cmds| - 1], cmds, k);
  }

  /** One row more keeps the earlier placeholders and, when nothing expects it, adds the next one. */
  lemma UnexpectedStep(t: Table, prefix: seq<string>, cmd: string, cmds: seq<string>, k: nat)
    requires NoSyntheticNames(t) && cmds == prefix + [cmd] && 1 <= k <= |Unmatched(t, cmds)|
    requires k <= |Unmatched(t, prefix)| ==>
      SyntheticName(k) in Classify(t, prefix).entries &&
      Classify(t, prefix).entries[SyntheticName(k)] == HealthRecord(Unmatched(t, prefix)[k - 1], Running, false, 1)
    ensures SyntheticName(k) in Classify(t, cmds).entries
    ensures Classify(t, cmds).entries[SyntheticName(k)] == HealthRecord(Unmatched(t, cmds)[k - 1], Running, false, 1)
  {
    CmdsStep(t, prefix, cmd, cmds);
    assert cmds[..|cmds| - 1] == prefix;
    if Expects(t, cmd) {
      assert SyntheticName(k) !in Names(t);
      BumpOthers(Classify(t, prefix), t, cmd, SyntheticName(k));
    } else if k <= |Unmatched(t, prefix)| {
      SyntheticNameInjective(k, |Unmatched(t, prefix)| + 1);
    }
  }

  /**
   * The insertion order is the expected names in table order followed by one
   * placeholder per unmatched row.
   */
  lemma {:induction false} ClassifyOrder(t: Table, cmds: seq<string>)
    requires DistinctNames(t) && NoSyntheticNames(t)
    ensures Classify(t, cmds).keys == Names(t) + Placeholders(|Unmatched(t, cmds)|)
    decreases |cmds|
  {
    if cmds == [] {
      InitShape(t);
    } else {
      var prefix := cmds[..|cmds| - 1];
      ClassifyOrder(t, prefix);
      ClassifyValid(t, prefix);
      var n := |Unmatched(t, prefix)|;
      if !Expects(t, cmds[|cmds| - 1]) {
        FreshPlaceholder(t, n);
        assert Placeholders(n + 1) == Placeholders(n) + [SyntheticName(n + 1)];
      }
    }
  }

  /** The next placeholder name is neither an expected name nor an earlier placeholder. */
  lemma FreshPlaceholder(t: Table, n: nat)
    requires NoSyntheticNames(t)
    ensures SyntheticName(n + 1) !in Names(t) + Placeholders(n)
  {
    forall k | 0 <= k < n ensures Placeholders(n)[k] != SyntheticName(n + 1) {
      SyntheticNameInjective(k + 1, n + 1);
    }
  }

  /**
   * The names are distinct, and there are as many entries as expected names
   * plus unmatched rows.
   */
  lemma ClassifySize(t: Table, cmds: seq<string>)
    requires DistinctNames(t) && NoSyntheticNames(t)
    ensures var h := Classify(t, cmds);
      Distinct(h.keys) && |h.entries| == |t| + |Unmatched(t, cmds)|
  {
    ClassifyOrder(t, cmds);
    ClassifyValid(t, cmds);
    EntryCount(Classify(t, cmds).keys, Classify(t, cmds).entries.Keys);
  }

  /** A set holding exactly the elements of a sequence without repeats has its length. */
  lemma {:induction false} EntryCount(s: seq<string>, names: set<string>)
    requires Distinct(s) && forall k :: k in names <==> k in s
    ensures |names| == |s|
    decreases |s|
  {
    if s != [] {
      var prefix := s[..|s| - 1];
      assert forall k :: k in names - {s[|s| - 1]} <==> k in prefix;
      EntryCount(prefix, names - {s[|s| - 1]});
    }
  }

  /** The table of `getStatus` names each process once. */
  lemma ExpectedNamesDistinct()
    ensures DistinctNames(ExpectedProcesses)
  {
  }

  /** No name of the table of `getStatus` is a placeholder name. */
  lemma ExpectedNamesNotSynthetic()
    ensures NoSyntheticNames(ExpectedProcesses)
  {
    forall i, k: nat | 0 <= i < |ExpectedProcesses| ensures ExpectedProcesses[i].0 != SyntheticName(k) {
      assert SyntheticName(k)[0] == '?';
    }
  }

  /**
   * A table with data rows but no column named CMD fails with a KeyError on
   * the first row; otherwise the rows are classified.
   */
  lemma RejectsMissingCmdColumn(t: Table, lines: seq<string>)
    requires |lines| >= 2
    ensures var cols := HeaderColumns(lines[1]);
      Classified(t, TableRows(lines)).Err?
      <==> |TableRows(lines)| > 0 && forall j :: 0 <= j < |cols| ==> cols[j].name != "CMD"
  {
    RowsFollowLines(lines);
    CmdsShape(TableRows(lines));
  }

  /**
   * The header test passes on "CMD" inside a longer column name, yet no column
   * is named CMD: the output "\nXCMD\nx" makes `getStatus` fail with KeyError.
   */
  lemma CmdInsideLongerName(t: Table)
    ensures Contains("XCMD", "CMD") && HeaderColumns("XCMD") == [Column("XCMD", 0, None)]
    ensures HealthOf(t, true, "\nXCMD\nx") == Err(MissingKey("CMD"))
  {
    assert Contains("CMD", "CMD");
    XCmdHeader();
    XCmdLines();
    XCmdRows();
    MissingCmd(t, TableRows(["", "XCMD", "x"]), 0);
  }

  lemma XCmdRows()
    ensures TableRows(["", "XCMD", "x"]) == [map["XCMD" := "x"]]
  {
    XCmdHeader();
    assert ["", "XCMD", "x"][2..] == ["x"];
    assert DataLines(["x"]) == ["x"];
    assert "x"[1..] == "" && "x"[..0] == "" && "x"[0..1] == "x";
    assert Strip(Span("x", Column("XCMD", 0, None))) == "x";
    assert [Column("XCMD", 0, None)][..0] == [];
    assert SliceRow("x", [Column("XCMD", 0, None)]) == map["XCMD" := "x"];
    assert ["x"][..0] == [];
  }

  lemma XCmdHeader()
    ensures HeaderColumns("XCMD") == [Column("XCMD", 0, None)]
  {
    var h := "XCMD";
    assert h[1..][1..][1..][1..] == [];
    assert Run(h, false) == 4;
    assert h[4..] == [] && h[..4] == h;
    assert MatchToken(h) == Some((h, 4));
    assert h[0..] == h;
    assert ColumnsAt(h, 4) == [];
  }

  lemma XCmdLines()
    ensures Split("\nXCMD\nx", '\n') == ["", "XCMD", "x"]
  {
    var s := "\nXCMD\nx";
    assert s[1..] == "XCMD\nx" && s[2..] == "CMD\nx" && s[3..] == "MD\nx" && s[4..] == "D\nx";
    assert s[5..] == "\nx" && s[6..] == "x" && s[7..] == "";
    assert Split(s[7..], '\n') == [""];
    assert [s[6]] + "" == "x" && [""][1..] == [];
    assert Split(s[6..], '\n') == ["x"];
    assert Split(s[5..], '\n') == ["", "x"];
    assert [s[4]] + "" == "D" && ["", "x"][1..] == ["x"];
    assert Split(s[4..], '\n') == ["D", "x"];
    assert [s[3]] + "D" == "MD" && ["D", "x"][1..] == ["x"];
    assert Split(s[3..], '\n') == ["MD", "x"];
    assert [s[2]] + "MD" == "CMD" && ["MD", "x"][1..] == ["x"];
    assert Split(s[2..], '\n') == ["CMD", "x"];
    assert [s[1]] + "CMD" == "XCMD" && ["CMD", "x"][1..] == ["x"];
    assert Split(s[1..], '\n') == ["XCMD", "x"];
  }

}
