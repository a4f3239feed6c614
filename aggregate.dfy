/**
 * The aggregation rules of `finalize_data_concurrent`, `fetch_pdf_and_append`
 * and `edit_csv` in main.py.
 *
 * The output CSV is modelled as an in-memory table of lines.  A compile run
 * truncates it to the header, zips the URL slugs with the labels, and runs
 * one job per community; a job appends one row when both fields of page 8
 * are non-empty.  The page texts are an input (`fetch`), keyed by slug.  The
 * jobs run here one after another; a lemma shows that any other completion
 * order leaves the same rows in the table.
 */
module Aggregate {
  import opened Wrappers
  import N = Normalizer
  import E = Extract

  /** The first line of every compiled table. */
  const Header: string := "Community,Immigrants,Non-Immigrants"

  /** The fixed cap on the number of worker threads. */
  const MaxWorkers: nat := 10

  // ---------------------------------------------------------------------
  // Worker count
  // ---------------------------------------------------------------------

  /** `min(num_cores // 2, num_communities, 10)` */
  function WorkerCount(cores: nat, communities: nat): (w: nat)
    ensures w <= cores / 2 && w <= communities && w <= MaxWorkers
    ensures w == cores / 2 || w == communities || w == MaxWorkers
  {
    var half := cores / 2;
    if half <= communities && half <= MaxWorkers then half
    else if communities <= MaxWorkers then communities
    else MaxWorkers
  }

  /** `ThreadPoolExecutor` raises `ValueError` unless `max_workers` is positive. */
  predicate PoolAccepts(workers: int)
  {
    workers > 0
  }

  /**
   * The pool is refused exactly when the machine has fewer than two cores
   * or the community list is empty.
   */
  lemma WorkerCountRefused(cores: nat, communities: nat)
    ensures !PoolAccepts(WorkerCount(cores, communities)) <==> cores < 2 || communities == 0
  {
  }

  /** On a single-core machine the pool is refused whatever the list holds. */
  lemma SingleCoreRefused(communities: nat)
    ensures WorkerCount(1, communities) == 0 && !PoolAccepts(WorkerCount(1, communities))
  {
  }

  /**
   * The worker count with a floor of one thread: it keeps the three caps
   * wherever they leave room for a worker, and the pool always accepts it.
   */
  function PoolSize(cores: nat, communities: nat): (w: nat)
    ensures PoolAccepts(w) && w <= MaxWorkers
    ensures w == 1 || (w <= cores / 2 && w <= communities)
    ensures w == 1 || w == cores / 2 || w == communities || w == MaxWorkers
  {
    var w := WorkerCount(cores, communities);
    if w == 0 then 1 else w
  }

  /** Wherever the original count is accepted, the corrected one equals it. */
  lemma PoolSizeAgrees(cores: nat, communities: nat)
    requires PoolAccepts(WorkerCount(cores, communities))
    ensures PoolSize(cores, communities) == WorkerCount(cores, communities)
  {
  }

  // ---------------------------------------------------------------------
  // Row format
  // ---------------------------------------------------------------------

  /** The line `f"{community_csv},{immigrants},{non_immigrants}"`. */
  function FormatRow(csvName: string, immigrants: string, nonImmigrants: string): (r: string)
    ensures |r| == |csvName| + |immigrants| + |nonImmigrants| + 2
    ensures ',' !in nonImmigrants ==> LastComma(r) == Some(|csvName| + |immigrants| + 1)
  {
    assert ',' !in nonImmigrants ==> LastComma(csvName + "," + immigrants + "," + nonImmigrants)
                                      == Some(|csvName| + |immigrants| + 1) by {
      if ',' !in nonImmigrants {
        LastCommaBefore(csvName + "," + immigrants, nonImmigrants);
      }
    }
    csvName + "," + immigrants + "," + nonImmigrants
  }

  /** The position of the last comma of `s`, if any. */
  function LastComma(s: string): (r: Option<nat>)
    ensures r.Some? ==> r.value < |s| && s[r.value] == ',' && forall k :: r.value < k < |s| ==> s[k] != ','
    ensures r.None? ==> forall k :: 0 <= k < |s| ==> s[k] != ','
  {
    if s == [] then None
    else if s[|s| - 1] == ',' then Some(|s| - 1)
    else
      var r := LastComma(s[..|s| - 1]);
      assert forall k :: 0 <= k < |s| - 1 ==> s[..|s| - 1][k] == s[k];
      r
  }

  /**
   * Reads a row back by cutting at its last two commas, the only way to
   * split it when the label may itself hold commas.
   */
  function SplitRow(line: string): (r: Option<(string, string, string)>)
    ensures r.Some? ==> FormatRow(r.value.0, r.value.1, r.value.2) == line
    ensures r.Some? ==> ',' !in r.value.1 && ',' !in r.value.2
  {
    match LastComma(line)
    case None => None
    case Some(j) =>
      match LastComma(line[..j])
      case None => None
      case Some(i) =>
        var csvName, immigrants, nonImmigrants := line[..i], line[i + 1..j], line[j + 1..];
        assert line == csvName + "," + immigrants + "," + nonImmigrants;
        assert forall k :: 0 <= k < |immigrants| ==> immigrants[k] == line[..j][i + 1 + k];
        assert forall k :: 0 <= k < |nonImmigrants| ==> nonImmigrants[k] == line[j + 1 + k];
        Some((csvName, immigrants, nonImmigrants))
  }

  /** The comma between `x` and a comma-free `y` is the last one. */
  lemma LastCommaBefore(x: string, y: string)
    requires ',' !in y
    ensures LastComma(x + "," + y) == Some(|x|)
  {
    CommaBeforeTail(x, y);
    LastCommaIs(x + "," + y, |x|);
  }

  /** In `x + "," + y` with a comma-free `y`, no comma follows position `|x|`, which holds one. */
  lemma CommaBeforeTail(x: string, y: string)
    requires ',' !in y
    ensures var s := x + "," + y; s[|x|] == ',' && forall k :: |x| < k < |s| ==> s[k] != ','
  {
    var s := x + "," + y;
    forall k | |x| < k < |s|
      ensures s[k] != ','
    {
      assert s[k] == y[k - |x| - 1];
    }
  }

  /** A comma with no comma after it is the last comma. */
  lemma LastCommaIs(s: string, j: nat)
    requires j < |s| && s[j] == ','
    requires forall k :: j < k < |s| ==> s[k] != ','
    ensures LastComma(s) == Some(j)
  {
  }

  /** A row whose fields hold no comma reads back as the label and the two fields. */
  lemma SplitFormatRow(csvName: string, immigrants: string, nonImmigrants: string)
    requires ',' !in immigrants && ',' !in nonImmigrants
    ensures SplitRow(FormatRow(csvName, immigrants, nonImmigrants)) == Some((csvName, immigrants, nonImmigrants))
  {
    var line := FormatRow(csvName, immigrants, nonImmigrants);
    var head := csvName + "," + immigrants;
    assert line == head + "," + nonImmigrants;
    LastCommaBefore(head, nonImmigrants);
    assert line[..|head|] == head;
    LastCommaBefore(csvName, immigrants);
    assert line[..|csvName|] == csvName;
    assert line[|csvName| + 1..|head|] == immigrants;
    assert line[|head| + 1..] == nonImmigrants;
  }

  // ---------------------------------------------------------------------
  // One job
  // ---------------------------------------------------------------------

  /**
   * How a `fetch_pdf_and_append` job ends: it appends a line, appends
   * nothing, or raises (the pool keeps the exception and the run goes on).
   */
  datatype Outcome = Row(line: string) | NoRow | Crashed

  /**
   * The job for the community labelled `label`, given the text of page 8 of
   * its report, or `None` when that page cannot be read (no PDF on disk, an
   * unreadable PDF, fewer than eight pages).
   */
  function JobOutcome(csvName: string, page: Option<string>): (o: Outcome)
    ensures o.Crashed? <==> page.None? || page.value == E.QuirkText
  {
    match page
    case None => Crashed
    case Some(text) =>
      match E.ImmigrationData(text)
      case EmptyString => Crashed
      case Fields(immigrants, nonImmigrants) =>
        if immigrants != [] && nonImmigrants != [] then Row(FormatRow(csvName, immigrants, nonImmigrants))
        else NoRow
  }

  /**
   * On a readable page the job appends a row exactly when both fields are
   * non-empty, and that row reads back as the label and the two fields.
   */
  lemma JobRowReadsBack(csvName: string, text: string)
    requires text != E.QuirkText
    ensures var o := JobOutcome(csvName, Some(text));
      var immigrants := E.Field(text, E.ImmigrantsPrefix);
      var nonImmigrants := E.Field(text, E.NonImmigrantsPrefix);
      (o.Row? <==> immigrants != [] && nonImmigrants != [])
      && (o.Row? ==> SplitRow(o.line) == Some((csvName, immigrants, nonImmigrants)))
  {
    var immigrants := E.Field(text, E.ImmigrantsPrefix);
    var nonImmigrants := E.Field(text, E.NonImmigrantsPrefix);
    E.FieldHasNoComma(text, E.ImmigrantsPrefix);
    E.FieldHasNoComma(text, E.NonImmigrantsPrefix);
    SplitFormatRow(csvName, immigrants, nonImmigrants);
  }

  /** A readable page without either figure still gives a row, of two "N/A" fields. */
  lemma NoFiguresStillGiveRow(csvName: string, text: string)
    requires text != E.QuirkText
    requires forall q :: 0 <= q < |text| ==> !E.MatchesAt(text, E.ImmigrantsPrefix, q)
    requires forall q :: 0 <= q < |text| ==> !E.MatchesAt(text, E.NonImmigrantsPrefix, q)
    ensures JobOutcome(csvName, Some(text)) == Row(csvName + ",N/A,N/A")
  {
    assert FormatRow(csvName, E.NotAvailable, E.NotAvailable) == csvName + ",N/A,N/A";
  }

  /** The lines a job appends. */
  function RowsOf(o: Outcome): seq<string>
  {
    if o.Row? then [o.line] else []
  }

  // ---------------------------------------------------------------------
  // The community list
  // ---------------------------------------------------------------------

  /** What iterating over a `data_normalize` result yields: the list's items, or the string's characters. */
  function Entries(n: N.Normalized): (r: seq<string>)
    ensures n.Items? ==> r == n.items
    ensures n.Plain? ==> |r| == |n.text| && forall i :: 0 <= i < |r| ==> r[i] == [n.text[i]]
  {
    match n
    case Items(items) => items
    case Plain(text) => seq(|text|, i requires 0 <= i < |text| => [text[i]])
  }

  /** Python's `zip`, which stops at the shorter argument. */
  function Zip(xs: seq<string>, ys: seq<string>): (r: seq<(string, string)>)
    ensures |r| <= |xs| && |r| <= |ys| && (|r| == |xs| || |r| == |ys|)
    ensures forall i :: 0 <= i < |r| ==> r[i].0 == xs[i] && r[i].1 == ys[i]
  {
    var n := if |xs| <= |ys| then |xs| else |ys|;
    seq(n, i requires 0 <= i < n => (xs[i], ys[i]))
  }

  /**
   * The (slug, label) pairs of main.py:142.  Both normalisations have one
   * entry per non-empty line of the ASCII-filtered names, so nothing is
   * dropped by the zip and pair `i` holds both forms of the same line.
   */
  function Communities(names: string): (cs: seq<(string, string)>)
    ensures |cs| == |Entries(N.Normalize(names, true, false))| == |Entries(N.Normalize(names, false, true))|
    ensures var src := N.SourceLines(names);
      src != [] ==> |cs| == |src| && forall i :: 0 <= i < |cs| ==> cs[i] == (N.Render(N.Url, src[i]), N.Render(N.Label, src[i]))
    ensures var ascii := N.AsciiOnly(names);
      N.SourceLines(names) == [] ==> |cs| == |ascii| && forall i :: 0 <= i < |cs| ==> cs[i] == ([ascii[i]], [ascii[i]])
  {
    Zip(Entries(N.Normalize(names, true, false)), Entries(N.Normalize(names, false, true)))
  }

  // ---------------------------------------------------------------------
  // All jobs
  // ---------------------------------------------------------------------

  /** The job for the pair `c`: its page is looked up by slug, its row carries the label. */
  function Job(c: (string, string), fetch: string -> Option<string>): (o: Outcome)
    ensures o.Crashed? <==> fetch(c.0).None? || fetch(c.0).value == E.QuirkText
  {
    JobOutcome(c.1, fetch(c.0))
  }

  /** The outcome of every job, in the order of `cs`. */
  function Outcomes(cs: seq<(string, string)>, fetch: string -> Option<string>): seq<Outcome>
  {
    seq(|cs|, i requires 0 <= i < |cs| => Job(cs[i], fetch))
  }

  /** The lines appended when jobs with outcomes `os` complete in that order. */
  function Appended(os: seq<Outcome>): (r: seq<string>)
    ensures |r| <= |os|
  {
    if os == [] then []
    else Appended(os[..|os| - 1]) + RowsOf(os[|os| - 1])
  }

  /** The data rows appended when the jobs complete in the order of `cs`. */
  function Rows(cs: seq<(string, string)>, fetch: string -> Option<string>): seq<string>
  {
    Appended(Outcomes(cs, fetch))
  }

  /** Two batches of jobs completing one after the other append their rows one after the other. */
  lemma {:induction false} AppendedConcat(os: seq<Outcome>, ps: seq<Outcome>)
    ensures Appended(os + ps) == Appended(os) + Appended(ps)
    decreases |ps|
  {
    if ps == [] {
      assert os + ps == os;
    } else {
      var last := |ps| - 1;
      assert (os + ps)[..|os + ps| - 1] == os + ps[..last];
      AppendedConcat(os, ps[..last]);
    }
  }

  /**
   * Every job appends at most one row, so the table gains no more rows than
   * there were jobs, and exactly that many only when every job yields a row.
   */
  lemma {:induction false} AppendedAtMostOnePerJob(os: seq<Outcome>)
    ensures |Appended(os)| <= |os|
    ensures |Appended(os)| == |os| <==> forall i :: 0 <= i < |os| ==> os[i].Row?
  {
    if os != [] {
      var init := os[..|os| - 1];
      AppendedAtMostOnePerJob(init);
      assert forall i :: 0 <= i < |init| ==> init[i] == os[i];
    }
  }

  /** A line is appended exactly when some job ends with that line as its row. */
  lemma {:induction false} AppendedLines(os: seq<Outcome>)
    ensures forall line :: line in Appended(os) <==> Row(line) in os
  {
    if os != [] {
      var init := os[..|os| - 1];
      AppendedLines(init);
      assert os == init + [os[|os| - 1]];
    }
  }

  /** One more job completing appends its row, if any, after the others. */
  lemma AppendedLast(os: seq<Outcome>, o: Outcome)
    ensures Appended(os + [o]) == Appended(os) + RowsOf(o)
  {
    assert (os + [o])[..|os|] == os;
  }

  /**
   * A sequence holding `x` splits around some occurrence of it, and the
   * rest holds what the sequence held, less that one `x`.
   */
  lemma SplitAtOccurrence<T>(s: seq<T>, x: T) returns (before: seq<T>, after: seq<T>)
    requires x in multiset(s)
    ensures s == before + [x] + after
    ensures multiset(before + after) == multiset(s) - multiset{x}
  {
    var j :| 0 <= j < |s| && s[j] == x;
    before, after := s[..j], s[j + 1..];
    assert s == before + [x] + after;
    assert multiset(s) == multiset(before) + multiset{x} + multiset(after);
  }

  /**
   * Jobs completing in a different order, but with the same outcomes, leave
   * the same rows in the table, as a multiset.
   */
  lemma {:induction false} AppendedOrderIndependent(os: seq<Outcome>, ps: seq<Outcome>)
    requires multiset(os) == multiset(ps)
    ensures multiset(Appended(os)) == multiset(Appended(ps))
    decreases |os|
  {
    if os != [] {
      var x := os[|os| - 1];
      var init := os[..|os| - 1];
      var before, after := SplitAtOccurrence(ps, x);
      assert os == init + [x];
      assert multiset(init) == multiset(before + after);
      AppendedOrderIndependent(init, before + after);
      AppendedLast(init, x);
      AppendedLast(before, x);
      AppendedConcat(before, after);
      AppendedConcat(before + [x], after);
    }
  }

  /** The outcomes of two batches of jobs, one after the other. */
  lemma OutcomesConcat(xs: seq<(string, string)>, ys: seq<(string, string)>, fetch: string -> Option<string>)
    ensures Outcomes(xs + ys, fetch) == Outcomes(xs, fetch) + Outcomes(ys, fetch)
  {
    var zs := xs + ys;
    assert forall i :: 0 <= i < |xs| ==> zs[i] == xs[i];
    assert forall i :: |xs| <= i < |zs| ==> zs[i] == ys[i - |xs|];
  }

  /** The job at position `i` completing after those before it appends its row after theirs. */
  lemma RowsStep(cs: seq<(string, string)>, i: nat, fetch: string -> Option<string>)
    requires i < |cs|
    ensures Rows(cs[..i + 1], fetch) == Rows(cs[..i], fetch) + RowsOf(Job(cs[i], fetch))
  {
    assert cs[..i + 1] == cs[..i] + [cs[i]];
    OutcomesConcat(cs[..i], [cs[i]], fetch);
    AppendedLast(Outcomes(cs[..i], fetch), Job(cs[i], fetch));
  }

  /** Reordering the communities reorders the outcomes of their jobs the same way. */
  lemma {:induction false} OutcomesOfReordering(cs: seq<(string, string)>, ds: seq<(string, string)>, fetch: string -> Option<string>)
    requires multiset(cs) == multiset(ds)
    ensures multiset(Outcomes(cs, fetch)) == multiset(Outcomes(ds, fetch))
    decreases |cs|
  {
    if cs != [] {
      var x := cs[|cs| - 1];
      var init := cs[..|cs| - 1];
      var before, after := SplitAtOccurrence(ds, x);
      assert cs == init + [x];
      assert multiset(init) == multiset(before + after);
      OutcomesOfReordering(init, before + after, fetch);
      OutcomesConcat(init, [x], fetch);
      OutcomesConcat(before, [x], fetch);
      OutcomesConcat(before + [x], after, fetch);
      OutcomesConcat(before, after, fetch);
    }
  }

  /**
   * The pool completes the jobs in an order it chooses; whatever that order,
   * the table ends up with the same rows, as a multiset.
   */
  lemma RowsOrderIndependent(cs: seq<(string, string)>, ds: seq<(string, string)>, fetch: string -> Option<string>)
    requires multiset(cs) == multiset(ds)
    ensures multiset(Rows(cs, fetch)) == multiset(Rows(ds, fetch))
  {
    OutcomesOfReordering(cs, ds, fetch);
    AppendedOrderIndependent(Outcomes(cs, fetch), Outcomes(ds, fetch));
  }

  /**
   * The table gains at most one row per community, and exactly one each
   * when every job yields a row.
   */
  lemma RowsPerCommunity(cs: seq<(string, string)>, fetch: string -> Option<string>)
    ensures |Rows(cs, fetch)| <= |cs|
    ensures |Rows(cs, fetch)| == |cs| <==> forall i :: 0 <= i < |cs| ==> Job(cs[i], fetch).Row?
  {
    var os := Outcomes(cs, fetch);
    AppendedAtMostOnePerJob(os);
    assert forall i :: 0 <= i < |cs| ==> os[i] == Job(cs[i], fetch);
  }

  /** The rows of the table are exactly the lines of the jobs that yield one. */
  lemma RowsAreTheJobsLines(cs: seq<(string, string)>, fetch: string -> Option<string>)
    ensures forall line :: line in Rows(cs, fetch) <==> exists i :: 0 <= i < |cs| && Job(cs[i], fetch) == Row(line)
  {
    var os := Outcomes(cs, fetch);
    AppendedLines(os);
    assert forall i :: 0 <= i < |cs| ==> os[i] == Job(cs[i], fetch);
  }

  // ---------------------------------------------------------------------
  // The CSV table
  // ---------------------------------------------------------------------

  /**
   * What `edit_csv(data, edit_type)` leaves in a table holding `rows`:
   * `None` when the mode is refused; mode "w" truncates the table to the
   * one line, mode "a" keeps the old lines and adds it last.
   */
  function Edited(rows: seq<string>, data: string, editType: string): (r: Option<seq<string>>)
    ensures r.Some? <==> editType == "w" || editType == "a"
    ensures r.Some? ==> r.value != [] && r.value[|r.value| - 1] == data
    ensures r.Some? ==> r.value[..|r.value| - 1] == if editType == "a" then rows else []
  {
    if editType == "w" then Some([data])
    else if editType == "a" then Some(rows + [data])
    else None
  }

  /** A write in mode "w" forgets whatever the table held before. */
  lemma WriteForgetsOldRows(rows: seq<string>, other: seq<string>, data: string)
    ensures Edited(rows, data, "w") == Edited(other, data, "w") == Some([data])
  {
  }

  /** The CSV file `calgary-immigrants-by-community.csv`, one entry per line. */
  class Table {
    var rows: seq<string>

    /** A table holding whatever a previous run left. */
    constructor(existing: seq<string>)
      ensures rows == existing
    {
      rows := existing;
    }

    /** `edit_csv`: refuses a mode other than "w" or "a" and then leaves the table as it was. */
    method EditCsv(data: string, editType: string) returns (ok: bool)
      modifies this
      ensures ok == Edited(old(rows), data, editType).Some?
      ensures rows == if ok then Edited(old(rows), data, editType).value else old(rows)
    {
      if editType != "w" && editType != "a" {
        return false;
      }
      if editType == "w" {
        rows := [data];
      } else {
        rows := rows + [data];
      }
      ok := true;
    }

    /** The extraction and append steps of `fetch_pdf_and_append` for one community. */
    method AppendJob(csvName: string, page: Option<string>) returns (o: Outcome)
      modifies this
      ensures o == JobOutcome(csvName, page)
      ensures rows == old(rows) + RowsOf(o)
    {
      if page.None? {
        return Crashed;
      }
      var data := E.ScanImmigrationData(page.value);
      match data
      case EmptyString =>
        o := Crashed;
      case Fields(immigrants, nonImmigrants) =>
        if immigrants != [] && nonImmigrants != [] {
          var line := FormatRow(csvName, immigrants, nonImmigrants);
          rows := rows + [line];
          o := Row(line);
        } else {
          o := NoRow;
        }
    }

    /** The jobs of `cs` run one after another, each appending its row. */
    method RunJobs(cs: seq<(string, string)>, fetch: string -> Option<string>)
      modifies this
      ensures rows == old(rows) + Rows(cs, fetch)
    {
      var i := 0;
      while i < |cs|
        invariant 0 <= i <= |cs|
        invariant rows == old(rows) + Rows(cs[..i], fetch)
      {
        var o := AppendJob(cs[i].1, fetch(cs[i].0));
        assert o == Job(cs[i], fetch);
        RowsStep(cs, i, fetch);
        i := i + 1;
      }
      assert cs[..|cs|] == cs;
    }

    /**
     * `finalize_data_concurrent` with the jobs run one after another in list
     * order: the table is truncated to the header and receives the rows of
     * every community, and the pool size is returned.
     */
    method Compile(names: string, cores: nat, fetch: string -> Option<string>) returns (workers: nat)
      modifies this
      ensures workers == PoolSize(cores, |Communities(names)|)
      ensures rows == [Header] + Rows(Communities(names), fetch)
    {
      var slugs := Entries(N.Normalize(names, true, false));
      var labels := Entries(N.Normalize(names, false, true));
      var _ := EditCsv(Header, "w");
      var cs := Zip(slugs, labels);
      assert cs == Communities(names);
      workers := PoolSize(cores, |slugs|);
      RunJobs(cs, fetch);
    }
  }
}
