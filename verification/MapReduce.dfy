/**
 The MapReduce benchmark's mapper and reducer, and what a whole job computes.

 Values are exact numbers.  The hash is a parameter, one per mapper, because the string hash of one
 Python process need not be that of another.
 */
module MapReduce {
  import opened Options
  import opened Bits
  import opened Text

  type Table = map<string, int>
  type Hash = string -> int
  type Parser = string -> Option<int>

  // ---------- Lines ----------

  /** The first field of a line. */
  function Key(line: string): string {
    Split(line, ',')[0]
  }

  /** The number in the fourth field; None where the line has none, which the mapper logs and skips. */
  function Amount(line: string, parse: Parser): Option<int> {
    var data := Split(line, ',');
    if |data| > 3 then parse(data[3]) else None
  }

  /** The lines of a part without its first and last. */
  function Body(contents: string): seq<string> {
    var lines := Split(contents, '\n');
    if |lines| <= 2 then [] else lines[1..|lines| - 1]
  }

  /** The lines of several parts, one part after the other. */
  function Lines(contents: seq<string>): seq<string> {
    if contents == [] then [] else Lines(contents[..|contents| - 1]) + Body(contents[|contents| - 1])
  }

  // ---------- The sequential group-by-sum ----------

  function Share(line: string, k: string, parse: Parser): int {
    if Key(line) == k && Amount(line, parse).Some? then Amount(line, parse).value else 0
  }

  /** The sum of all amounts that the lines have for `k`. */
  function Total(lines: seq<string>, k: string, parse: Parser): int {
    if lines == [] then 0
    else Total(lines[..|lines| - 1], k, parse) + Share(lines[|lines| - 1], k, parse)
  }

  ghost predicate Keyed(lines: seq<string>, k: string) {
    exists i :: 0 <= i < |lines| && Key(lines[i]) == k
  }

  /** One entry for every key, also for a key whose every amount is unreadable, with its total. */
  ghost predicate IsGroupSum(t: Table, lines: seq<string>, parse: Parser) {
    forall k :: (k in t <==> Keyed(lines, k)) && (k in t ==> t[k] == Total(lines, k, parse))
  }

  lemma {:induction false} TotalConcat(a: seq<string>, b: seq<string>, k: string, parse: Parser)
    ensures Total(a + b, k, parse) == Total(a, k, parse) + Total(b, k, parse)
    ensures Keyed(a + b, k) <==> Keyed(a, k) || Keyed(b, k)
  {
    if b == [] {
      assert a + b == a;
    } else {
      assert (a + b)[..|a + b| - 1] == a + b[..|b| - 1];
      TotalConcat(a, b[..|b| - 1], k, parse);
      assert Keyed(a, k) ==> Keyed(a + b, k) by {
        if i :| 0 <= i < |a| && Key(a[i]) == k { assert (a + b)[i] == a[i]; }
      }
      assert Keyed(b, k) ==> Keyed(a + b, k) by {
        if i :| 0 <= i < |b| && Key(b[i]) == k { assert (a + b)[|a| + i] == b[i]; }
      }
    }
  }

  lemma OneMoreLine(t: Table, lines: seq<string>, line: string, parse: Parser)
    requires IsGroupSum(t, lines, parse)
    ensures IsGroupSum(AddLine(t, line, parse), lines + [line], parse)
  {
    hide Key, Amount;
    assert (lines + [line])[..|lines|] == lines && (lines + [line])[|lines|] == line;
    forall k ensures Keyed(lines + [line], k) <==> Keyed(lines, k) || Key(line) == k {
      if i :| 0 <= i < |lines| && Key(lines[i]) == k { assert (lines + [line])[i] == lines[i]; }
    }
    forall k | !Keyed(lines, k) ensures Total(lines, k, parse) == 0 {
      AbsentKey(lines, k, parse);
    }
  }

  lemma {:induction false} AbsentKey(lines: seq<string>, k: string, parse: Parser)
    requires !Keyed(lines, k)
    ensures Total(lines, k, parse) == 0
  {
    if lines != [] {
      AbsentKey(lines[..|lines| - 1], k, parse);
    }
  }

  /** A line first makes its key known, with zero, and then adds its amount if it can be read. */
  function AddLine(t: Table, line: string, parse: Parser): Table {
    var known := if Key(line) in t then t else t[Key(line) := 0];
    if Amount(line, parse).Some? then known[Key(line) := known[Key(line)] + Amount(line, parse).value] else known
  }

  // ---------- What is in a line and in a part ----------

  /** No field has the separator: what a line is split into. */
  ghost predicate AreFields(fields: seq<string>, separator: char) {
    fields != [] && forall i :: 0 <= i < |fields| ==> separator !in fields[i]
  }

  /** Every line is some comma-free fields with commas between. */
  lemma EveryLineHasFields(line: string) returns (fields: seq<string>)
    ensures AreFields(fields, ',') && line == Join(fields, ",")
  {
    fields := Split(line, ',');
    JoinSplit(line, ',');
  }

  /** The key of a line is its first field, and its amount what its fourth field reads as, if it has one. */
  lemma FieldsOfLine(fields: seq<string>, parse: Parser)
    requires AreFields(fields, ',')
    ensures var line := Join(fields, ",");
            && Key(line) == fields[0]
            && Amount(line, parse) == if |fields| > 3 then parse(fields[3]) else None
  {
    SplitJoin(fields, ',');
  }

  /** What one more line means for the total of a key, and for whether the key is there. */
  lemma LineCounts(lines: seq<string>, fields: seq<string>, k: string, parse: Parser)
    requires AreFields(fields, ',')
    ensures Total(lines + [Join(fields, ",")], k, parse) == Total(lines, k, parse) +
              if fields[0] == k && |fields| > 3 && parse(fields[3]).Some? then parse(fields[3]).value else 0
    ensures Keyed(lines + [Join(fields, ",")], k) <==> Keyed(lines, k) || fields[0] == k
  {
    hide Key, Amount, Total, Keyed, Join;
    FieldsOfLine(fields, parse);
    TotalAppend(lines, Join(fields, ","), k, parse);
    KeyedAppend(lines, Join(fields, ","), k);
  }

  lemma NoLines(k: string, parse: Parser)
    ensures Total([], k, parse) == 0 && !Keyed([], k)
  {
  }

  lemma TotalAppend(lines: seq<string>, line: string, k: string, parse: Parser)
    ensures Total(lines + [line], k, parse) == Total(lines, k, parse) + Share(line, k, parse)
  {
    hide Key, Amount;
    assert (lines + [line])[..|lines|] == lines;
  }

  lemma KeyedAppend(lines: seq<string>, line: string, k: string)
    ensures Keyed(lines + [line], k) <==> Keyed(lines, k) || Key(line) == k
  {
    hide Key;
    var all := lines + [line];
    assert forall i :: 0 <= i < |lines| ==> all[i] == lines[i];
    if Key(line) == k { assert Key(all[|lines|]) == k; }
    if i :| 0 <= i < |lines| && Key(lines[i]) == k { assert Key(all[i]) == k; }
  }

  /** The lines of a part are those between its first and its last. */
  lemma LinesOfPart(contents: seq<string>, first: string, body: seq<string>, last: string)
    requires '\n' !in first && '\n' !in last && forall i :: 0 <= i < |body| ==> '\n' !in body[i]
    ensures Lines(contents + [Join([first] + body + [last], "\n")]) == Lines(contents) + body
    ensures Lines(contents + [first]) == Lines(contents)
    ensures Lines([]) == []
  {
    var all := [first] + body + [last];
    assert "\n" == ['\n'];
    SplitJoin(all, '\n');
    SplitWhole(first, '\n');
    var part := Join(all, "\n");
    assert all[1..|all| - 1] == body;
    assert (contents + [part])[..|contents|] == contents && (contents + [first])[..|contents|] == contents;
  }

  // ---------- The mapper ----------

  /** The bucket that a hash masks to. */
  function Bucket(hash: Hash, k: string, nReducers: nat): (b: nat)
    requires nReducers >= 1
    ensures b < nReducers
  {
    And(hash(k), nReducers - 1)
  }

  /** For the powers of two, a key's bucket is its hash modulo the number of reducers, never negative. */
  lemma BucketIsMod(hash: Hash, k: string, n: nat)
    requires n >= 1 && IsPow2(n)
    ensures Bucket(hash, k, n) == hash(k) % n
  {
    var e: nat :| n == Pow2(e);
    MaskIsMod(hash(k), e);
  }

  /** The part of the group-by-sum that a mapper leaves for reducer `r`: the keys of that bucket. */
  ghost predicate IsBucketSum(t: Table, lines: seq<string>, hash: Hash, parse: Parser, n: nat, r: nat)
    requires n >= 1
  {
    forall k ::
      && (k in t <==> Keyed(lines, k) && Bucket(hash, k, n) == r)
      && (k in t ==> t[k] == Total(lines, k, parse))
  }

  /** The table cut into one table for each reducer, by bucket. */
  ghost predicate Shuffled(shuffle: seq<Table>, t: Table, hash: Hash, nReducers: nat)
    requires nReducers >= 1
  {
    && |shuffle| == nReducers
    && forall r, k :: 0 <= r < nReducers ==>
         && (k in shuffle[r] <==> k in t && Bucket(hash, k, nReducers) == r)
         && (k in shuffle[r] ==> shuffle[r][k] == t[k])
  }

  method MapFunction(contents: seq<string>, nReducers: nat, hash: Hash, parse: Parser)
    returns (shuffleOutput: seq<Table>)
    requires nReducers >= 1
    ensures |shuffleOutput| == nReducers
    ensures forall r :: 0 <= r < nReducers ==> IsBucketSum(shuffleOutput[r], Lines(contents), hash, parse, nReducers, r)
  {
    hide Key, Amount, Body, IsGroupSum, AddLine, Bucket, Keyed, Total;
    var output: Table := map[];
    EmptyGroupSum(parse);
    for i := 0 to |contents|
      invariant IsGroupSum(output, Lines(contents[..i]), parse)
    {
      var lines := Body(contents[i]);
      ghost var before := Lines(contents[..i]);
      assert before + lines[..0] == before;
      for j := 0 to |lines|
        invariant IsGroupSum(output, before + lines[..j], parse)
      {
        assert before + lines[..j] + [lines[j]] == before + lines[..j + 1];
        output := MapLine(output, lines[j], parse);
      }
      assert lines[..|lines|] == lines;
      assert contents[..i + 1][..i] == contents[..i];
    }
    assert contents[..|contents|] == contents;
    shuffleOutput := Shuffle(output, nReducers, hash);
    BucketSums(output, Lines(contents), shuffleOutput, hash, parse, nReducers);
  }

  lemma BucketSums(t: Table, lines: seq<string>, shuffle: seq<Table>, hash: Hash, parse: Parser, n: nat)
    requires n >= 1 && IsGroupSum(t, lines, parse) && Shuffled(shuffle, t, hash, n)
    ensures |shuffle| == n && forall r :: 0 <= r < n ==> IsBucketSum(shuffle[r], lines, hash, parse, n, r)
  {
    hide Keyed, Total, Bucket;
  }

  lemma EmptyGroupSum(parse: Parser)
    ensures IsGroupSum(map[], [], parse)
  {
  }

  /** One line; the source catches a missing or unreadable fourth field after it has made the key known. */
  method MapLine(table: Table, line: string, parse: Parser) returns (output: Table)
    ensures output == AddLine(table, line, parse)
    ensures forall lines :: IsGroupSum(table, lines, parse) ==> IsGroupSum(output, lines + [line], parse)
  {
    output := table;
    var data := Split(line, ',');
    var srcIp := data[0];
    if srcIp !in output {
      output := output[srcIp := 0];
    }
    if |data| > 3 {
      var value := parse(data[3]);
      if value.Some? {
        output := output[srcIp := output[srcIp] + value.value];
      }
    }
    forall lines | IsGroupSum(table, lines, parse)
      ensures IsGroupSum(AddLine(table, line, parse), lines + [line], parse)
    {
      OneMoreLine(table, lines, line, parse);
    }
  }

  method Shuffle(output: Table, nReducers: nat, hash: Hash) returns (shuffleOutput: seq<Table>)
    requires nReducers >= 1
    ensures Shuffled(shuffleOutput, output, hash, nReducers)
  {
    shuffleOutput := seq(nReducers, _ => map[]);
    var rest := output.Keys;
    while rest != {}
      invariant rest <= output.Keys && |shuffleOutput| == nReducers
      invariant forall r, k :: 0 <= r < nReducers ==>
          && (k in shuffleOutput[r] <==> k in output && k !in rest && Bucket(hash, k, nReducers) == r)
          && (k in shuffleOutput[r] ==> shuffleOutput[r][k] == output[k])
      decreases rest
    {
      var srcIp :| srcIp in rest;
      rest := rest - {srcIp};
      var reducerNum := Bucket(hash, srcIp, nReducers);
      shuffleOutput := shuffleOutput[reducerNum := shuffleOutput[reducerNum][srcIp := output[srcIp]]];
    }
  }

  // ---------- The reducer ----------

  function At(t: Table, k: string): int {
    if k in t then t[k] else 0
  }

  function SumAt(tables: seq<Table>, k: string): int {
    if tables == [] then 0 else SumAt(tables[..|tables| - 1], k) + At(tables[|tables| - 1], k)
  }

  /** The key-wise sum of the tables. */
  ghost predicate IsMerge(t: Table, tables: seq<Table>) {
    forall k :: (k in t <==> exists i :: 0 <= i < |tables| && k in tables[i]) && (k in t ==> t[k] == SumAt(tables, k))
  }

  method ReduceFunction(responses: seq<Table>) returns (results: Table)
    ensures IsMerge(results, responses)
  {
    results := map[];
    for i := 0 to |responses|
      invariant IsMerge(results, responses[..i])
    {
      ghost var before := results;
      var items := responses[i];
      var rest := items.Keys;
      while rest != {}
        invariant rest <= items.Keys
        invariant forall k :: k in results <==> k in before || (k in items && k !in rest)
        invariant forall k :: k in results ==>
            results[k] == At(before, k) + (if k in items && k !in rest then items[k] else 0)
        decreases rest
      {
        var srcIp :| srcIp in rest;
        rest := rest - {srcIp};
        if srcIp !in results {
          results := results[srcIp := 0];
        }
        results := results[srcIp := results[srcIp] + items[srcIp]];
      }
      MergeOneMore(before, responses, i, results);
    }
    assert responses[..|responses|] == responses;
  }

  lemma MergeOneMore(before: Table, tables: seq<Table>, i: nat, after: Table)
    requires i < |tables| && IsMerge(before, tables[..i])
    requires forall k :: k in after <==> k in before || k in tables[i]
    requires forall k :: k in after ==> after[k] == At(before, k) + At(tables[i], k)
    ensures IsMerge(after, tables[..i + 1])
  {
    var next := tables[..i + 1];
    assert next[..i] == tables[..i];
    forall k
      ensures k in after <==> exists j :: 0 <= j < |next| && k in next[j]
      ensures k in after ==> after[k] == SumAt(next, k)
    {
      if k in before {
        var j :| 0 <= j < i && k in tables[..i][j];
        assert k in next[j];
      } else {
        AbsentFromAll(tables[..i], k);
      }
      assert next[i] == tables[i];
      if k in after && k !in before { assert k in next[i]; }
    }
  }

  lemma {:induction false} AbsentFromAll(tables: seq<Table>, k: string)
    requires forall i :: 0 <= i < |tables| ==> k !in tables[i]
    ensures SumAt(tables, k) == 0
  {
    if tables != [] {
      AbsentFromAll(tables[..|tables| - 1], k);
    }
  }
}
