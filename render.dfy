/**
 * The status screen (`renderStatus` in ui/main.py): a header line, then one
 * block per health entry in insertion order. A block is the colour code, the
 * right-justified row, the indented command line when the row is shown red,
 * and the reset code. Printing is modelled as the sequence of strings the
 * successive `print` calls write, each with its line terminator.
 */
module Render {
  import opened Wrappers
  import opened PyStr
  import opened OsmoHealth

  const Red: string := "\U{1B}[91m"
  const Green: string := "\U{1B}[92m"
  const Reset: string := "\U{1B}[0m"

  /** `max` over an empty list raises ValueError: there is no entry to size the name column by. */
  datatype RenderError = NoEntries

  /** A row is red when its process is not running, not expected, or not running exactly once. */
  predicate ShowRed(p: HealthRecord) {
    p.status != Running || !p.expected || p.count != 1
  }

  function ExpectedText(expected: bool): string {
    if expected then "yes" else "no"
  }

  /** The length of the longest name: the width of the name column. */
  function MaxLen(names: seq<string>): (m: nat)
    requires |names| > 0
    ensures forall i :: 0 <= i < |names| ==> |names[i]| <= m
    ensures exists i :: 0 <= i < |names| && |names[i]| == m
  {
    if |names| == 1 then |names[0]|
    else
      var m := MaxLen(names[..|names| - 1]);
      var last := |names[|names| - 1]|;
      if last > m then last else m
  }

  function HeaderLine(w: nat): string {
    RJust("Name", w) + " " + RJust("Count", 5) + " " + RJust("Status", 10) + " " + RJust("Expected", 10) + "\n"
  }

  function RowLine(name: string, p: HealthRecord, w: nat): string {
    RJust(name, w) + " " + RJust(NatToString(p.count), 5) + " " + RJust(p.status.Text(), 10) + " "
    + RJust(ExpectedText(p.expected), 10) + "\n"
  }

  /** What the loop body prints for one entry. */
  function RowBlock(name: string, p: HealthRecord, w: nat): seq<string> {
    [if ShowRed(p) then Red else Green, RowLine(name, p, w)]
    + (if ShowRed(p) then ["  " + p.cmd + "\n"] else [])
    + [Reset]
  }

  /** The block of every entry named by `keys`, in that order. */
  function RowBlocks(h: Health, keys: seq<string>, w: nat): (blocks: seq<seq<string>>)
    requires forall i :: 0 <= i < |keys| ==> keys[i] in h.entries
    ensures |blocks| == |keys|
  {
    if keys == [] then []
    else
      var prefix := keys[..|keys| - 1];
      var name := keys[|keys| - 1];
      assert forall i :: 0 <= i < |prefix| ==> prefix[i] == keys[i];
      RowBlocks(h, prefix, w) + [RowBlock(name, h.entries[name], w)]
  }

  lemma {:induction false} RowBlocksAt(h: Health, keys: seq<string>, w: nat, i: nat)
    requires forall i :: 0 <= i < |keys| ==> keys[i] in h.entries
    requires i < |keys|
    ensures RowBlocks(h, keys, w)[i] == RowBlock(keys[i], h.entries[keys[i]], w)
    decreases |keys|
  {
    if i < |keys| - 1 {
      var prefix := keys[..|keys| - 1];
      assert forall i :: 0 <= i < |prefix| ==> prefix[i] == keys[i];
      RowBlocksAt(h, prefix, w, i);
    }
  }

  /** The blocks written one after the other. */
  function Flatten<T>(blocks: seq<seq<T>>): seq<T> {
    if blocks == [] then [] else Flatten(blocks[..|blocks| - 1]) + blocks[|blocks| - 1]
  }

  lemma FlattenStep<T>(head: seq<T>, blocks: seq<seq<T>>, i: nat, before: seq<T>, after: seq<T>)
    requires i < |blocks| && before == head + Flatten(blocks[..i]) && after == before + blocks[i]
    ensures after == head + Flatten(blocks[..i + 1])
  {
    FlattenSnoc(blocks, i);
  }

  lemma FlattenSnoc<T>(blocks: seq<seq<T>>, i: nat)
    requires i < |blocks|
    ensures Flatten(blocks[..i + 1]) == Flatten(blocks[..i]) + blocks[i]
  {
    assert blocks[..i + 1][..i] == blocks[..i];
  }

  /** Every listed name has a record. */
  ghost predicate Listed(h: Health) {
    forall i :: 0 <= i < |h.keys| ==> h.keys[i] in h.entries
  }

  /** What `renderStatus` prints for the health data `h`, or the error it raises. */
  function Rendered(h: Health): Result<seq<string>, RenderError>
    requires Listed(h)
  {
    if h.keys == [] then Err(NoEntries)
    else
      var w := MaxLen(h.keys);
      Ok([HeaderLine(w)] + Flatten(RowBlocks(h, h.keys, w)))
  }

  /** The prints of the loop body for one entry: they append the entry's block. */
  method PrintEntry(out: seq<string>, name: string, p: HealthRecord, maxname: nat) returns (out': seq<string>)
    ensures out' == out + RowBlock(name, p, maxname)
  {
    var showred := false;
    if p.status != Running || !p.expected || p.count != 1 {
      showred := true;
    }
    out' := out;
    if showred {
      out' := out' + [Red];
    } else {
      out' := out' + [Green];
    }
    out' := out' + [RowLine(name, p, maxname)];
    if p.status != Running || !p.expected || p.count != 1 {
      out' := out' + ["  " + p.cmd + "\n"];
    }
    out' := out' + [Reset];
    assert out' == out + ([if showred then Red else Green, RowLine(name, p, maxname)]
                          + (if showred then ["  " + p.cmd + "\n"] else []) + [Reset]);
  }

  method RenderStatus(h: Health) returns (r: Result<seq<string>, RenderError>)
    requires Listed(h)
    ensures r == Rendered(h)
  {
    if |h.keys| == 0 {
      return Err(NoEntries);
    }
    var maxname := MaxLen(h.keys);
    ghost var blocks := RowBlocks(h, h.keys, maxname);
    var out := [HeaderLine(maxname)];
    for i := 0 to |h.keys|
      invariant out == [HeaderLine(maxname)] + Flatten(blocks[..i])
    {
      var name := h.keys[i];
      ghost var before := out;
      out := PrintEntry(out, name, h.entries[name], maxname);
      RowBlocksAt(h, h.keys, maxname, i);
      FlattenStep([HeaderLine(maxname)], blocks, i, before, out);
    }
    assert blocks[..|h.keys|] == blocks;
    return Ok(out);
  }

  // ---------------------------------------------------------------------------
  // Properties of renderStatus

  /**
   * Every block starts with the red or the green code, according to the rule,
   * and ends with the reset code; it has the row line second and holds the
   * indented command line, before the reset, exactly when the row is red.
   */
  lemma RowBlockShape(name: string, p: HealthRecord, w: nat)
    ensures var b := RowBlock(name, p, w);
      |b| == (if ShowRed(p) then 4 else 3)
      && b[0] == (if ShowRed(p) then Red else Green) && b[|b| - 1] == Reset
      && b[1] == RowLine(name, p, w)
      && (ShowRed(p) ==> b[2] == "  " + p.cmd + "\n")
  {
  }

  /** Consecutive runs of blocks are written one after the other. */
  lemma {:induction false} FlattenAppend<T>(a: seq<seq<T>>, b: seq<seq<T>>)
    ensures Flatten(a + b) == Flatten(a) + Flatten(b)
    decreases |b|
  {
    if b == [] {
      assert a + b == a;
    } else {
      var prefix := b[..|b| - 1];
      assert (a + b)[..|a + b| - 1] == a + prefix;
      FlattenAppend(a, prefix);
    }
  }

  /** After a head, the i-th block is written right after the blocks before it. */
  lemma FlattenBlock<T>(head: seq<T>, blocks: seq<seq<T>>, i: nat)
    requires i < |blocks|
    ensures var out := head + Flatten(blocks);
      var before := |head| + |Flatten(blocks[..i])|;
      before + |blocks[i]| <= |out| && out[before..before + |blocks[i]|] == blocks[i]
  {
    assert blocks == blocks[..i + 1] + blocks[i + 1..];
    FlattenAppend(blocks[..i + 1], blocks[i + 1..]);
    FlattenSnoc(blocks, i);
  }

  lemma HeadThenBlock<T>(out: seq<T>, head: T, blocks: seq<seq<T>>, i: nat)
    requires out == [head] + Flatten(blocks) && i < |blocks|
    ensures var before := 1 + |Flatten(blocks[..i])|;
      out[0] == head && before + |blocks[i]| <= |out| && out[before..before + |blocks[i]|] == blocks[i]
  {
    FlattenBlock([head], blocks, i);
  }

  /**
   * The output is the uncoloured header, then the block of every entry in
   * insertion order: the i-th entry's block follows the blocks of the entries
   * inserted before it.
   */
  lemma RowsInInsertionOrder(h: Health, out: seq<string>, i: nat)
    requires Listed(h) && Rendered(h) == Ok(out) && i < |h.keys|
    ensures var w := MaxLen(h.keys);
      var blocks := RowBlocks(h, h.keys, w);
      var before := 1 + |Flatten(blocks[..i])|;
      out[0] == HeaderLine(w)
      && before + |blocks[i]| <= |out| && out[before..before + |blocks[i]|] == blocks[i]
  {
    var w := MaxLen(h.keys);
    var blocks := RowBlocks(h, h.keys, w);
    HeadThenBlock(out, HeaderLine(w), blocks, i);
  }

  /** Rendering fails exactly when there is no entry. */
  lemma RejectsEmpty(h: Health)
    requires Valid(h)
    ensures Rendered(h).Err? <==> h.entries == map[]
  {
    if h.keys != [] {
      assert h.keys[0] in h.entries;
    }
  }

  /** The name column is as wide as the longest name in whatever order the names are listed. */
  lemma MaxLenPermutation(a: seq<string>, b: seq<string>)
    requires |a| > 0 && multiset(a) == multiset(b)
    ensures |b| > 0 && MaxLen(a) == MaxLen(b)
  {
    assert |b| == |multiset(b)| == |multiset(a)| == |a|;
    var i :| 0 <= i < |a| && |a[i]| == MaxLen(a);
    var j :| 0 <= j < |b| && |b[j]| == MaxLen(b);
    assert a[i] in multiset(b);
    assert b[j] in multiset(a);
  }

  /**
   * Layout: with a name no longer than the column and a count of at most
   * five digits, a row line has the name column's width plus 29 characters
   * (three fields of 5, 10 and 10, three separating spaces and the newline);
   * the header has the same shape with "Name" filling at least 4.
   */
  lemma Layout(name: string, p: HealthRecord, w: nat)
    requires |name| <= w && p.count < 100000
    ensures |RowLine(name, p, w)| == w + 29
    ensures |HeaderLine(w)| == (if w < 4 then 4 else w) + 29
  {
    NatToStringLength(p.count);
    var f1 := RJust(name, w);
    var f2 := RJust(NatToString(p.count), 5);
    var f3 := RJust(p.status.Text(), 10);
    var f4 := RJust(ExpectedText(p.expected), 10);
    assert |f1| == w && |f2| == 5 && |f3| == 10 && |f4| == 10;
    assert RowLine(name, p, w) == f1 + " " + f2 + " " + f3 + " " + f4 + "\n";
  }

  /**
   * The columns sit at fixed offsets: the name field fills the first w
   * characters, then come the count (5), status (10) and expected (10)
   * fields, each after one space, and the newline; every field is its value
   * right-justified (`RJustShape`).
   */
  lemma RowFields(name: string, p: HealthRecord, w: nat)
    requires |name| <= w && p.count < 100000
    ensures var line := RowLine(name, p, w);
      |line| == w + 29
      && line[..w] == RJust(name, w)
      && line[w + 1..w + 6] == RJust(NatToString(p.count), 5)
      && line[w + 7..w + 17] == RJust(p.status.Text(), 10)
      && line[w + 18..w + 28] == RJust(ExpectedText(p.expected), 10)
      && line[w] == line[w + 6] == line[w + 17] == ' ' && line[w + 28] == '\n'
  {
    NatToStringLength(p.count);
    Fields(RJust(name, w), ' ', RJust(NatToString(p.count), 5), ' ', RJust(p.status.Text(), 10), ' ',
           RJust(ExpectedText(p.expected), 10), '\n');
  }

  /** With a name column at least as wide as "Name", the header's fields sit where the rows' fields do. */
  lemma HeaderFields(w: nat)
    requires w >= 4
    ensures var line := HeaderLine(w);
      |line| == w + 29
      && line[..w] == RJust("Name", w)
      && line[w + 1..w + 6] == RJust("Count", 5)
      && line[w + 7..w + 17] == RJust("Status", 10)
      && line[w + 18..w + 28] == RJust("Expected", 10)
      && line[w] == line[w + 6] == line[w + 17] == ' ' && line[w + 28] == '\n'
  {
    Fields(RJust("Name", w), ' ', RJust("Count", 5), ' ', RJust("Status", 10), ' ', RJust("Expected", 10), '\n');
  }

  /** Where the four fields and their separators of a printed line lie. */
  lemma Fields<T>(f1: seq<T>, s1: T, f2: seq<T>, s2: T, f3: seq<T>, s3: T, f4: seq<T>, nl: T)
    ensures var line := f1 + [s1] + f2 + [s2] + f3 + [s3] + f4 + [nl];
      var a := |f1|;
      var b := a + 1 + |f2|;
      var c := b + 1 + |f3|;
      var d := c + 1 + |f4|;
      |line| == d + 1
      && line[..a] == f1 && line[a + 1..b] == f2 && line[b + 1..c] == f3 && line[c + 1..d] == f4
      && line[a] == s1 && line[b] == s2 && line[c] == s3 && line[d] == nl
  {
  }

  // ---------------------------------------------------------------------------
  // The rule applied to the health data of getStatus

  /**
   * An expected process is shown green exactly when exactly one observed row
   * has its command line.
   */
  lemma ExpectedGreen(t: Table, cmds: seq<string>, i: nat)
    requires DistinctNames(t) && NoSyntheticNames(t) && i < |t|
    ensures !ShowRed(Classify(t, cmds).entries[t[i].0]) <==> multiset(cmds)[t[i].1] == 1
  {
    ClassifyExpected(t, cmds, i);
  }

  /** A row that matches no expected process is always shown red. */
  lemma UnexpectedRed(t: Table, cmds: seq<string>, k: nat)
    requires NoSyntheticNames(t) && 1 <= k <= |Unmatched(t, cmds)|
    ensures SyntheticName(k) in Classify(t, cmds).entries && ShowRed(Classify(t, cmds).entries[SyntheticName(k)])
  {
    ClassifyUnexpected(t, cmds, k);
  }

  /** Health data built from a non-empty table always renders. */
  lemma ClassifiedRenders(t: Table, cmds: seq<string>)
    requires |t| > 0
    ensures Listed(Classify(t, cmds)) && Rendered(Classify(t, cmds)).Ok?
  {
    ClassifyValid(t, cmds);
    RejectsEmpty(Classify(t, cmds));
  }
}
