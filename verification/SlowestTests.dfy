/** Finding the slowest tests of a CI build: the durations read from one log. */
module SlowestTests {

  /** A group header line: its timestamp, the name after it, trimmed, and the file that name
      stands for, without an attempt suffix. */
  datatype Header = Header(ts: int, name: string, file: string)

  function Get(m: map<string, int>, key: string): int {
    if key in m then m[key] else 0
  }

  /** The time between header `i` and the next one goes to the file of header `i`. */
  function Duration(headers: seq<Header>, i: nat): int
    requires i + 1 < |headers|
  {
    if headers[i].name == "" then 0 else headers[i + 1].ts - headers[i].ts
  }

  /** What the first `n` headers contribute to a file. */
  function DurationOf(headers: seq<Header>, file: string, n: nat): int
    requires n <= |headers|
  {
    if n <= 1 then 0
    else
      DurationOf(headers, file, n - 1)
      + if headers[n - 2].name != "" && headers[n - 2].file == file then Duration(headers, n - 2) else 0
  }

  /** The files that the first `n` headers contribute to, in the order they come up. */
  function FilesTo(headers: seq<Header>, n: nat): seq<string>
    requires n <= |headers|
  {
    if n <= 1 then []
    else
      var before, h := FilesTo(headers, n - 1), headers[n - 2];
      if h.name != "" && h.file !in before then before + [h.file] else before
  }

  /** The map of a log, with its keys in the order they were set. */
  method ParseLog(headers: seq<Header>) returns (out: map<string, int>, files: seq<string>)
    ensures files == FilesTo(headers, |headers|)
    ensures forall file :: file in out <==> file in files
    ensures forall file :: Get(out, file) == DurationOf(headers, file, |headers|)
    ensures SumOf(out) == SumDurations(headers, |headers|)
  {
    out, files := map[], [];
    assert SumOf(out) == 0;
    hide SumOver;
    var curName, curFile, curStart := "", "", 0;
    for n := 0 to |headers|
      invariant n > 0 ==> curName == headers[n - 1].name && curFile == headers[n - 1].file && curStart == headers[n - 1].ts
      invariant n == 0 ==> curName == ""
      invariant files == FilesTo(headers, n)
      invariant forall file :: file in out <==> file in files
      invariant forall file :: Get(out, file) == DurationOf(headers, file, n)
      invariant SumOf(out) == SumDurations(headers, n)
    {
      var m := headers[n];
      if curName != "" {
        SumOfUpdate(out, curFile, Get(out, curFile) + (m.ts - curStart));
        if curFile !in out {
          files := files + [curFile];
        }
        out := out[curFile := Get(out, curFile) + (m.ts - curStart)];
      }
      curStart, curName, curFile := m.ts, m.name, m.file;
    }
  }

  function SumDurations(headers: seq<Header>, n: nat): int
    requires n <= |headers|
  {
    if n <= 1 then 0 else SumDurations(headers, n - 1) + Duration(headers, n - 2)
  }

  /** The sum of the values of a map. */
  ghost function SumOver(m: map<string, int>, keys: set<string>): int
    requires keys <= m.Keys
  {
    if keys == {} then 0
    else
      var k :| k in keys;
      m[k] + SumOver(m, keys - {k})
  }

  ghost function SumOf(m: map<string, int>): int {
    SumOver(m, m.Keys)
  }

  /** Any element may be taken out first. */
  lemma {:induction false} SumOverWithout(m: map<string, int>, keys: set<string>, j: string)
    requires j in keys && keys <= m.Keys
    ensures SumOver(m, keys) == m[j] + SumOver(m, keys - {j})
    decreases keys
  {
    var k :| k in keys && SumOver(m, keys) == m[k] + SumOver(m, keys - {k});
    if k != j {
      SumOverWithout(m, keys - {k}, j);
      SumOverWithout(m, keys - {j}, k);
      assert keys - {k} - {j} == keys - {j} - {k};
    }
  }

  lemma {:induction false} SumOverAgrees(m: map<string, int>, m': map<string, int>, keys: set<string>)
    requires keys <= m.Keys && keys <= m'.Keys && forall k :: k in keys ==> m[k] == m'[k]
    ensures SumOver(m, keys) == SumOver(m', keys)
    decreases keys
  {
    if keys != {} {
      var k :| k in keys && SumOver(m, keys) == m[k] + SumOver(m, keys - {k});
      SumOverAgrees(m, m', keys - {k});
      SumOverWithout(m', keys, k);
    }
  }

  lemma {:induction false} SumOfUpdate(m: map<string, int>, key: string, value: int)
    ensures SumOf(m[key := value]) == SumOf(m) - Get(m, key) + value
  {
    var m' := m[key := value];
    SumOverWithout(m', m'.Keys, key);
    SumOverAgrees(m, m', m.Keys - {key});
    if key in m {
      SumOverWithout(m, m.Keys, key);
      assert m'.Keys - {key} == m.Keys - {key};
    } else {
      assert m'.Keys - {key} == m.Keys == m.Keys - {key};
    }
  }

  /** Durations telescope: with no blank name they add up to the time from the first header
      to the last. */
  lemma {:induction false} DurationsTelescope(headers: seq<Header>, n: nat)
    requires 0 < n <= |headers| && forall i :: 0 <= i < n - 1 ==> headers[i].name != ""
    ensures SumDurations(headers, n) == headers[n - 1].ts - headers[0].ts
  {
    if n > 1 {
      DurationsTelescope(headers, n - 1);
    }
  }

  /** Timestamps never go back. */
  ghost predicate Ticks(headers: seq<Header>) {
    forall i :: 0 <= i < |headers| - 1 ==> headers[i].ts <= headers[i + 1].ts
  }

  /** Timestamps that never go back give no negative duration. */
  lemma {:induction false} DurationsNotNegative(headers: seq<Header>, file: string, n: nat)
    requires n <= |headers| && Ticks(headers)
    ensures DurationOf(headers, file, n) >= 0
  {
    if n > 1 {
      DurationsNotNegative(headers, file, n - 1);
    }
  }

  /** At instant `t` the last header printed is that of the file. */
  ghost predicate RunsAt(headers: seq<Header>, file: string, t: int) {
    exists i :: 0 <= i < |headers| && headers[i].ts <= t && headers[i].name != "" && headers[i].file == file
                && forall k :: i < k < |headers| ==> headers[k].ts > t
  }

  /** How many instants of a span the file runs at. */
  ghost function Instants(headers: seq<Header>, file: string, start: int, end: int): int
    decreases end - start
  {
    if end <= start then 0 else Instants(headers, file, start, end - 1) + if RunsAt(headers, file, end - 1) then 1 else 0
  }

  lemma {:induction false} InOrder(headers: seq<Header>)
    requires Ticks(headers)
    ensures forall i, k :: 0 <= i <= k < |headers| ==> headers[i].ts <= headers[k].ts
  {
    if |headers| > 1 {
      var front, n := headers[..|headers| - 1], |headers| - 1;
      InOrder(front);
      forall i | 0 <= i < n ensures headers[i].ts <= headers[n].ts {
        assert front[i].ts <= front[n - 1].ts && headers[n - 1].ts <= headers[n].ts;
      }
    }
  }

  lemma {:induction false} InstantsBetween(headers: seq<Header>, file: string, n: nat, start: int, end: int)
    requires Ticks(headers) && n + 1 < |headers| && start <= headers[n].ts <= end <= headers[n + 1].ts
    ensures Instants(headers, file, start, end)
         == Instants(headers, file, start, headers[n].ts)
            + (if headers[n].name != "" && headers[n].file == file then end - headers[n].ts else 0)
    decreases end - headers[n].ts
  {
    hide RunsAt, Ticks;
    if end > headers[n].ts {
      InstantsBetween(headers, file, n, start, end - 1);
      LastPrinted(headers, file, n, end - 1);
    }
  }

  lemma {:induction false} LastPrinted(headers: seq<Header>, file: string, n: nat, t: int)
    requires Ticks(headers) && n + 1 < |headers| && headers[n].ts <= t < headers[n + 1].ts
    ensures RunsAt(headers, file, t) <==> headers[n].name != "" && headers[n].file == file
  {
    InOrder(headers);
    assert forall k :: n < k < |headers| ==> headers[k].ts > t;
    if i :| 0 <= i < |headers| && headers[i].ts <= t && headers[i].name != "" && headers[i].file == file
            && forall k :: i < k < |headers| ==> headers[k].ts > t {
      assert i == n;
    }
  }

  /** What timestamps that never go back give a file is the time during which its header was
      the last one printed. */
  lemma {:induction false} DurationIsTimeRunning(headers: seq<Header>, file: string, n: nat)
    requires Ticks(headers) && 1 <= n <= |headers|
    ensures DurationOf(headers, file, n) == Instants(headers, file, headers[0].ts, headers[n - 1].ts)
  {
    if n > 1 {
      hide RunsAt;
      InOrder(headers);
      DurationIsTimeRunning(headers, file, n - 1);
      InstantsBetween(headers, file, n - 2, headers[0].ts, headers[n - 1].ts);
    }
  }

  /** The files are those of the named headers that are followed by another one, each once. */
  lemma {:induction false} FilesAre(headers: seq<Header>, n: nat)
    requires n <= |headers|
    ensures forall i, j :: 0 <= i < j < |FilesTo(headers, n)| ==> FilesTo(headers, n)[i] != FilesTo(headers, n)[j]
    ensures forall file :: file in FilesTo(headers, n) <==>
              exists i :: 0 <= i < n - 1 && headers[i].name != "" && headers[i].file == file
  {
    if n > 1 {
      FilesAre(headers, n - 1);
    }
  }

  /** A file that is not listed has no time. */
  lemma {:induction false} UnlistedHasNone(headers: seq<Header>, file: string, n: nat)
    requires n <= |headers| && file !in FilesTo(headers, n)
    ensures DurationOf(headers, file, n) == 0
  {
    if n > 1 {
      UnlistedHasNone(headers, file, n - 1);
    }
  }

  /** An entry of the map of a log. */
  datatype Report = Report(file: string, ms: int)

  /** The entries of the map of a log, in their order. */
  function Reports(headers: seq<Header>): (r: seq<Report>)
    ensures |r| == |FilesTo(headers, |headers|)|
  {
    var files := FilesTo(headers, |headers|);
    seq(|files|, i requires 0 <= i < |files| => Report(files[i], DurationOf(headers, files[i], |headers|)))
  }

  function SumReports(reports: seq<Report>, file: string): int {
    if reports == [] then 0
    else SumReports(reports[..|reports| - 1], file) + if reports[|reports| - 1].file == file then reports[|reports| - 1].ms else 0
  }

  lemma {:induction false} SumOfDistinct(reports: seq<Report>, k: nat)
    requires k < |reports| && forall i, j :: 0 <= i < j < |reports| ==> reports[i].file != reports[j].file
    ensures SumReports(reports, reports[k].file) == reports[k].ms
    decreases |reports|
  {
    var front := reports[..|reports| - 1];
    if k == |reports| - 1 {
      SumOfOthers(front, reports[k].file);
    } else {
      SumOfDistinct(front, k);
    }
  }

  lemma {:induction false} SumOfOthers(reports: seq<Report>, file: string)
    requires forall i :: 0 <= i < |reports| ==> reports[i].file != file
    ensures SumReports(reports, file) == 0
  {
    if reports != [] {
      SumOfOthers(reports[..|reports| - 1], file);
    }
  }

  /** The entries of a file add up to its durations. */
  lemma {:induction false} ReportsAreDurations(headers: seq<Header>, file: string)
    ensures SumReports(Reports(headers), file) == DurationOf(headers, file, |headers|)
  {
    hide DurationOf, SumReports, FilesTo;
    FilesAre(headers, |headers|);
    var files := FilesTo(headers, |headers|);
    if file in files {
      var k :| 0 <= k < |files| && files[k] == file;
      SumOfDistinct(Reports(headers), k);
    } else {
      SumOfOthers(Reports(headers), file);
      UnlistedHasNone(headers, file, |headers|);
    }
  }
}
