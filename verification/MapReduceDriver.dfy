/**
 The driver of a MapReduce job: it checks its settings, runs the mappers, hands every reducer the
 storage keys of its tables, as a list or as one comma-joined string, and runs the reducers.
 */
module MapReduceDriver {
  import opened Options
  import opened Bits
  import opened Text
  import opened MapReduce
  import opened MapReduceJob

  // ---------- Storage keys ----------

  const OUTPUT_MAPPER_PREFIX := "artemiy/task/mapper/"

  /** Where mapper `i` puts its table for reducer `r`. */
  function KeyFor(job: string, r: nat, i: nat): string {
    OUTPUT_MAPPER_PREFIX + "job_" + job + "/shuffle_" + Decimal(r) + "/map_" + Decimal(i)
  }

  lemma CancelPrefix(p: string, a: string, b: string)
    requires p + a == p + b
    ensures a == b
  {
    assert (p + a)[|p|..] == a && (p + b)[|p|..] == b;
  }

  lemma CancelFirst(a: string, x: string, b: string, y: string)
    requires '/' !in a && '/' !in b && a + ['/'] + x == b + ['/'] + y
    ensures a == b && x == y
  {
    SplitFirst(a, '/', x);
    SplitFirst(b, '/', y);
    assert ([a] + Split(x, '/'))[0] == ([b] + Split(y, '/'))[0];
    CancelPrefix(a + ['/'], x, y);
  }

  lemma KeyParts(job: string, r: nat, i: nat)
    ensures KeyFor(job, r, i) ==
              (OUTPUT_MAPPER_PREFIX + "job_" + job + "/shuffle_") + (Decimal(r) + ['/'] + ("map_" + Decimal(i)))
  {
    var p, d, e := OUTPUT_MAPPER_PREFIX + "job_" + job + "/shuffle_", Decimal(r), Decimal(i);
    assert "/map_" == ['/'] + "map_";
    assert p + d + (['/'] + "map_") + e == p + (d + ['/'] + ("map_" + e));
  }

  /** An example. */
  lemma KeyExample()
    ensures KeyFor("0", 1, 12) == "artemiy/task/mapper/job_0/shuffle_1/map_12"
  {
    assert Decimal(1) == "1" && Decimal(12) == "12";
  }

  /** Two tables are never put in the same place. */
  lemma KeysDistinct(job: string, r: nat, i: nat, q: nat, j: nat)
    requires KeyFor(job, r, i) == KeyFor(job, q, j)
    ensures r == q && i == j
  {
    hide Decimal, KeyFor;
    KeyParts(job, r, i);
    KeyParts(job, q, j);
    CancelPrefix(OUTPUT_MAPPER_PREFIX + "job_" + job + "/shuffle_",
                 Decimal(r) + ['/'] + ("map_" + Decimal(i)), Decimal(q) + ['/'] + ("map_" + Decimal(j)));
    CancelFirst(Decimal(r), "map_" + Decimal(i), Decimal(q), "map_" + Decimal(j));
    CancelPrefix("map_", Decimal(i), Decimal(j));
    DecimalInjective(r, q);
    DecimalInjective(i, j);
  }

  lemma KeyHasNoComma(job: string, r: nat, i: nat)
    requires ',' !in job
    ensures ',' !in KeyFor(job, r, i) && KeyFor(job, r, i) != ""
  {
    assert ',' !in Decimal(r) && ',' !in Decimal(i);
  }

  // ---------- Handing the keys over ----------

  method PrepareReduceKeys(resultKeys: seq<seq<string>>, n: nat) returns (reduceInputKeys: seq<seq<string>>)
    requires forall i :: 0 <= i < |resultKeys| ==> |resultKeys[i]| == n
    ensures |reduceInputKeys| == n
    ensures forall r :: 0 <= r < n ==> reduceInputKeys[r] == KeyColumn(resultKeys, r)
    ensures forall r :: 0 <= r < n ==> |reduceInputKeys[r]| == |resultKeys|
    ensures forall r, i :: 0 <= r < n && 0 <= i < |resultKeys| ==> reduceInputKeys[r][i] == resultKeys[i][r]
  {
    reduceInputKeys := seq(n, _ => []);
    for i := 0 to |resultKeys|
      invariant |reduceInputKeys| == n
      invariant forall r :: 0 <= r < n ==> reduceInputKeys[r] == KeyColumn(resultKeys[..i], r)
    {
      for r := 0 to n
        invariant |reduceInputKeys| == n
        invariant forall q :: r <= q < n ==> reduceInputKeys[q] == KeyColumn(resultKeys[..i], q)
        invariant forall q :: 0 <= q < r ==> reduceInputKeys[q] == KeyColumn(resultKeys[..i], q) + [resultKeys[i][q]]
      {
        reduceInputKeys := reduceInputKeys[r := reduceInputKeys[r] + [resultKeys[i][r]]];
      }
      forall q | 0 <= q < n ensures reduceInputKeys[q] == KeyColumn(resultKeys[..i + 1], q) {
        OneMoreKey(resultKeys, i, q);
      }
    }
    assert resultKeys[..|resultKeys|] == resultKeys;
  }

  function KeyColumn(resultKeys: seq<seq<string>>, r: nat): seq<string>
    requires forall i :: 0 <= i < |resultKeys| ==> r < |resultKeys[i]|
  {
    seq(|resultKeys|, i requires 0 <= i < |resultKeys| => resultKeys[i][r])
  }

  lemma OneMoreKey(resultKeys: seq<seq<string>>, i: nat, r: nat)
    requires i < |resultKeys| && forall j :: 0 <= j < |resultKeys| ==> r < |resultKeys[j]|
    ensures KeyColumn(resultKeys[..i + 1], r) == KeyColumn(resultKeys[..i], r) + [resultKeys[i][r]]
  {
  }

  /** The comma-joined form: a separator is put in only once there is something before it. */
  function Joined(keys: seq<string>): string {
    if keys == [] then ""
    else
      var before := Joined(keys[..|keys| - 1]);
      if before == "" then keys[|keys| - 1] else before + "," + keys[|keys| - 1]
  }

  method PrepareReduceKeysLambda(resultKeys: seq<seq<string>>, n: nat) returns (reduceInputKeys: seq<string>)
    requires forall i :: 0 <= i < |resultKeys| ==> |resultKeys[i]| == n
    ensures |reduceInputKeys| == n
    ensures forall r :: 0 <= r < n ==> reduceInputKeys[r] == Joined(KeyColumn(resultKeys, r))
  {
    reduceInputKeys := seq(n, _ => "");
    for i := 0 to |resultKeys|
      invariant |reduceInputKeys| == n
      invariant forall r :: 0 <= r < n ==> reduceInputKeys[r] == Joined(KeyColumn(resultKeys[..i], r))
    {
      for r := 0 to n
        invariant |reduceInputKeys| == n
        invariant forall q :: r <= q < n ==> reduceInputKeys[q] == Joined(KeyColumn(resultKeys[..i], q))
        invariant forall q :: 0 <= q < r ==> reduceInputKeys[q] == Joined(KeyColumn(resultKeys[..i + 1], q))
      {
        OneMoreKey(resultKeys, i, r);
        ghost var column := KeyColumn(resultKeys[..i + 1], r);
        assert column[..i] == KeyColumn(resultKeys[..i], r);
        if reduceInputKeys[r] == "" {
          reduceInputKeys := reduceInputKeys[r := reduceInputKeys[r] + resultKeys[i][r]];
        } else {
          reduceInputKeys := reduceInputKeys[r := reduceInputKeys[r] + "," + resultKeys[i][r]];
        }
      }
    }
    assert resultKeys[..|resultKeys|] == resultKeys;
  }

  /** How many keys at the front are empty. */
  function LeadingEmpty(keys: seq<string>): (n: nat)
    ensures n <= |keys| && forall i :: 0 <= i < n ==> keys[i] == ""
    ensures n < |keys| ==> keys[n] != ""
  {
    if keys == [] || keys[0] != "" then 0 else 1 + LeadingEmpty(keys[1..])
  }

  lemma {:induction false} JoinNonempty(keys: seq<string>)
    requires keys != [] && keys[0] != ""
    ensures Join(keys, ",") != ""
  {
  }

  /** The driver joins what remains after the empty keys at the front. */
  lemma {:induction false} JoinedIsJoin(keys: seq<string>)
    ensures Joined(keys) == Join(keys[LeadingEmpty(keys)..], ",")
  {
    if keys != [] {
      var m := |keys| - 1;
      var before, last := keys[..m], keys[m];
      JoinedIsJoin(before);
      LeadingEmptySnoc(before, last);
      assert before + [last] == keys;
      var e := LeadingEmpty(before);
      if e < m {
        JoinNonempty(before[e..]);
        JoinSnoc(before[e..], last, ",");
        assert keys[e..] == before[e..] + [last];
      } else if last == "" {
        assert keys[m + 1..] == [];
      } else {
        assert keys[m..] == [last];
      }
    }
  }

  lemma {:induction false} LeadingEmptySnoc(keys: seq<string>, last: string)
    ensures LeadingEmpty(keys + [last]) ==
              if LeadingEmpty(keys) < |keys| then LeadingEmpty(keys)
              else if last == "" then |keys| + 1 else |keys|
  {
    if keys != [] && keys[0] == "" {
      LeadingEmptySnoc(keys[1..], last);
      assert (keys + [last])[1..] == keys[1..] + [last];
    }
  }

  /**
   A reducer that splits the joined string gets its keys back exactly if none of them has a comma
   and the first is not empty; a single empty key also comes back.
   */
  lemma JoinedKeysComeBack(keys: seq<string>)
    requires keys != []
    ensures Split(Joined(keys), ',') == keys <==>
              (forall i :: 0 <= i < |keys| ==> ',' !in keys[i]) && (keys[0] != "" || |keys| == 1)
  {
    JoinedIsJoin(keys);
    var e := LeadingEmpty(keys);
    if forall i :: 0 <= i < |keys| ==> ',' !in keys[i] {
      if e < |keys| {
        SplitJoin(keys[e..], ',');
        if e > 0 {
          assert |keys[e..]| < |keys|;
          assert keys[0] == "";
        }
      } else {
        SplitWhole("", ',');
        assert keys[0] == "";
        assert Split(Joined(keys), ',') == [""];
      }
    }
  }

  // ---------- The whole job ----------

  /** Mapper `i`'s tables are where its keys say. */
  ghost predicate Stored(storage: map<string, Table>, job: string, i: nat, shuffle: seq<Table>) {
    forall r :: 0 <= r < |shuffle| ==> KeyFor(job, r, i) in storage && storage[KeyFor(job, r, i)] == shuffle[r]
  }

  /** Puts one mapper's tables into storage; tables of other mappers stay as they are. */
  method SaveShuffle(before: map<string, Table>, job: string, i: nat, shuffle: seq<Table>)
    returns (storage: map<string, Table>, keys: seq<string>)
    ensures Stored(storage, job, i, shuffle)
    ensures forall j, other :: j != i && Stored(before, job, j, other) ==> Stored(storage, job, j, other)
    ensures |keys| == |shuffle| && forall r :: 0 <= r < |keys| ==> keys[r] == KeyFor(job, r, i)
  {
    hide KeyFor;
    storage, keys := before, [];
    for r := 0 to |shuffle|
      invariant |keys| == r && forall q :: 0 <= q < r ==> keys[q] == KeyFor(job, q, i)
      invariant forall q :: 0 <= q < r ==> KeyFor(job, q, i) in storage && storage[KeyFor(job, q, i)] == shuffle[q]
      invariant forall j, other :: j != i && Stored(before, job, j, other) ==> Stored(storage, job, j, other)
    {
      var mapperKey := KeyFor(job, r, i);
      forall q, j | KeyFor(job, q, j) == mapperKey ensures q == r && j == i {
        KeysDistinct(job, q, j, r, i);
      }
      storage := storage[mapperKey := shuffle[r]];
      keys := keys + [mapperKey];
    }
  }

  /** In storage is what mapper `i` has to leave for every reducer. */
  ghost predicate LeftBehind(
    storage: map<string, Table>, job: string, i: nat, lines: seq<string>, hash: Hash, parse: Parser, n: nat)
    requires n >= 1
  {
    exists shuffle: seq<Table> ::
      && Stored(storage, job, i, shuffle)
      && |shuffle| == n && forall r :: 0 <= r < n ==> IsBucketSum(shuffle[r], lines, hash, parse, n, r)
  }

  lemma LeftAt(
    storage: map<string, Table>, job: string, i: nat, lines: seq<string>, hash: Hash, parse: Parser, n: nat, r: nat)
    requires n >= 1 && LeftBehind(storage, job, i, lines, hash, parse, n) && r < n
    ensures KeyFor(job, r, i) in storage && IsBucketSum(storage[KeyFor(job, r, i)], lines, hash, parse, n, r)
  {
    hide KeyFor, IsBucketSum;
  }

  lemma JustLeft(
    storage: map<string, Table>, job: string, i: nat, lines: seq<string>, hash: Hash, parse: Parser, n: nat,
    shuffle: seq<Table>)
    requires n >= 1 && Stored(storage, job, i, shuffle) && |shuffle| == n
    requires forall r :: 0 <= r < n ==> IsBucketSum(shuffle[r], lines, hash, parse, n, r)
    ensures LeftBehind(storage, job, i, lines, hash, parse, n)
  {
  }

  lemma StillLeft(
    before: map<string, Table>, after: map<string, Table>, job: string, i: nat, lines: seq<string>, hash: Hash,
    parse: Parser, n: nat)
    requires n >= 1 && LeftBehind(before, job, i, lines, hash, parse, n)
    requires forall shuffle :: Stored(before, job, i, shuffle) ==> Stored(after, job, i, shuffle)
    ensures LeftBehind(after, job, i, lines, hash, parse, n)
  {
    hide Stored, IsBucketSum;
  }

  /** The keys that the mappers answer with. */
  ghost predicate KeysOfJob(resultKeys: seq<seq<string>>, n: nat, job: string) {
    forall i :: 0 <= i < |resultKeys| ==>
      |resultKeys[i]| == n && forall r :: 0 <= r < n ==> resultKeys[i][r] == KeyFor(job, r, i)
  }

  /** One mapper: its tables are left behind, and what others left stays. */
  method RunMapper(
    before: map<string, Table>, contents: seq<string>, hash: Hash, parse: Parser, n: nat, job: string, i: nat)
    returns (storage: map<string, Table>, keys: seq<string>)
    requires n >= 1
    ensures LeftBehind(storage, job, i, Lines(contents), hash, parse, n)
    ensures forall j, lines, h :: j != i && LeftBehind(before, job, j, lines, h, parse, n) ==>
        LeftBehind(storage, job, j, lines, h, parse, n)
    ensures |keys| == n && forall r :: 0 <= r < n ==> keys[r] == KeyFor(job, r, i)
  {
    hide IsBucketSum, Stored, KeyFor, Lines, LeftBehind;
    var shuffle := MapFunction(contents, n, hash, parse);
    storage, keys := SaveShuffle(before, job, i, shuffle);
    JustLeft(storage, job, i, Lines(contents), hash, parse, n, shuffle);
    forall j, lines, h | j != i && LeftBehind(before, job, j, lines, h, parse, n)
      ensures LeftBehind(storage, job, j, lines, h, parse, n)
    {
      StillLeft(before, storage, job, j, lines, h, parse, n);
    }
  }

  method RunMappers(parts: seq<seq<string>>, hashes: seq<Hash>, parse: Parser, n: nat, job: string)
    returns (storage: map<string, Table>, resultKeys: seq<seq<string>>)
    requires n >= 1 && |parts| == |hashes|
    ensures |resultKeys| == |parts| && KeysOfJob(resultKeys, n, job)
    ensures forall i :: 0 <= i < |parts| ==> LeftBehind(storage, job, i, Lines(parts[i]), hashes[i], parse, n)
  {
    hide KeyFor, Lines, LeftBehind;
    storage, resultKeys := map[], [];
    for i := 0 to |parts|
      invariant |resultKeys| == i && KeysOfJob(resultKeys, n, job)
      invariant forall j :: 0 <= j < i ==> LeftBehind(storage, job, j, Lines(parts[j]), hashes[j], parse, n)
    {
      var keys;
      storage, keys := RunMapper(storage, parts[i], hashes[i], parse, n, job, i);
      resultKeys := resultKeys + [keys];
    }
  }

  /** Gets a reducer's tables out of storage, key by key. */
  method Fetch(storage: map<string, Table>, keys: seq<string>) returns (responses: seq<Table>)
    requires forall i :: 0 <= i < |keys| ==> keys[i] in storage
    ensures |responses| == |keys| && forall i :: 0 <= i < |keys| ==> responses[i] == storage[keys[i]]
  {
    responses := [];
    for i := 0 to |keys|
      invariant |responses| == i && forall j :: 0 <= j < i ==> responses[j] == storage[keys[j]]
    {
      responses := responses + [storage[keys[i]]];
    }
  }

  /** The keys that each reducer reads, after they travelled as lists or as comma-joined strings. */
  method TransportKeys(
    resultKeys: seq<seq<string>>, n: nat, job: string, viaLambda: bool)
    returns (keys: seq<seq<string>>)
    requires resultKeys != [] && ',' !in job && KeysOfJob(resultKeys, n, job)
    ensures |keys| == n && forall r :: 0 <= r < n ==> keys[r] == KeyColumn(resultKeys, r)
    ensures forall r :: 0 <= r < n ==> |keys[r]| == |resultKeys|
    ensures forall r, i :: 0 <= r < n && 0 <= i < |resultKeys| ==> keys[r][i] == resultKeys[i][r]
  {
    hide KeyFor, Joined;
    if viaLambda {
      var joined := PrepareReduceKeysLambda(resultKeys, n);
      keys := seq(n, r requires 0 <= r < n => Split(joined[r], ','));
      forall r | 0 <= r < n ensures keys[r] == KeyColumn(resultKeys, r) {
        var column := KeyColumn(resultKeys, r);
        forall i | 0 <= i < |column| ensures ',' !in column[i] && column[i] != "" {
          KeyHasNoComma(job, r, i);
        }
        JoinedKeysComeBack(column);
      }
    } else {
      keys := PrepareReduceKeys(resultKeys, n);
    }
  }

  /** The tables that the keys of one reducer name. */
  function Named(storage: map<string, Table>, keys: seq<string>): seq<Table>
    requires forall i :: 0 <= i < |keys| ==> keys[i] in storage
  {
    seq(|keys|, i requires 0 <= i < |keys| => storage[keys[i]])
  }

  /** One table for each reducer, the merge of the tables that its keys name. */
  ghost predicate AreMerges(tables: seq<Table>, storage: map<string, Table>, keys: seq<seq<string>>)
    requires forall r, i :: 0 <= r < |keys| && 0 <= i < |keys[r]| ==> keys[r][i] in storage
  {
    |tables| == |keys| && forall r :: 0 <= r < |keys| ==> IsMerge(tables[r], Named(storage, keys[r]))
  }

  method RunReducers(storage: map<string, Table>, keys: seq<seq<string>>) returns (tables: seq<Table>)
    requires forall r, i :: 0 <= r < |keys| && 0 <= i < |keys[r]| ==> keys[r][i] in storage
    ensures AreMerges(tables, storage, keys)
  {
    tables := [];
    for r := 0 to |keys|
      invariant |tables| == r && forall q :: 0 <= q < r ==> IsMerge(tables[q], Named(storage, keys[q]))
    {
      hide IsMerge;
      var responses := Fetch(storage, keys[r]);
      assert responses == Named(storage, keys[r]);
      var table := ReduceFunction(responses);
      tables := tables + [table];
    }
  }

  /** The right tables under the right keys, merged, are the result of the job. */
  lemma TablesMakeJob(
    parts: seq<seq<string>>, hashes: seq<Hash>, parse: Parser, n: nat, job: string, storage: map<string, Table>,
    resultKeys: seq<seq<string>>, keys: seq<seq<string>>)
    requires n >= 1 && |parts| == |hashes| == |resultKeys| && KeysOfJob(resultKeys, n, job)
    requires forall i :: 0 <= i < |parts| ==> LeftBehind(storage, job, i, Lines(parts[i]), hashes[i], parse, n)
    requires |keys| == n && forall r :: 0 <= r < n ==> keys[r] == KeyColumn(resultKeys, r)
    ensures forall r, i :: 0 <= r < n && 0 <= i < |keys[r]| ==> keys[r][i] in storage
    ensures forall tables :: AreMerges(tables, storage, keys) ==> IsJob(parts, hashes, parse, n, tables)
  {
    hide KeyFor, IsBucketSum, IsMerge, IsJob, LeftBehind, Lines;
    assert forall r :: 0 <= r < n ==> |keys[r]| == |parts|;
    forall r, i | 0 <= r < n && 0 <= i < |parts|
      ensures keys[r][i] == KeyFor(job, r, i) && keys[r][i] in storage
      ensures IsBucketSum(storage[keys[r][i]], Lines(parts[i]), hashes[i], parse, n, r)
    {
      LeftAt(storage, job, i, Lines(parts[i]), hashes[i], parse, n, r);
    }
    assert forall r, i :: 0 <= r < n && 0 <= i < |keys[r]| ==> keys[r][i] in storage;
    var columns := seq(n, r requires 0 <= r < n => Named(storage, keys[r]));
    forall tables | AreMerges(tables, storage, keys)
      ensures IsJob(parts, hashes, parse, n, tables)
    {
      MergesMakeJob(parts, hashes, parse, n, columns, tables);
    }
  }

  /**
   A whole job: nothing for settings that the driver exits on, else the reducers' tables.  `input`
   gives the contents that mapper `i` reads, `hashOf` the hash it uses.
   */
  method DriveFunction(
    numMappers: int, numReducers: int, input: nat -> seq<string>, hashOf: nat -> Hash, parse: Parser, job: string,
    viaLambda: bool)
    returns (results: Option<seq<Table>>)
    requires ',' !in job
    ensures results.Some? <==>
        2 <= numMappers <= 2215 && 1 <= numReducers < numMappers && IsPow2(numReducers)
    ensures results.Some? ==>
        IsJob(seq(numMappers, input), seq<Hash>(numMappers, hashOf), parse, numReducers, results.value)
  {
    if numMappers <= 1 || numReducers <= 0 {
      return None;
    } else if numMappers > 2215 {
      return None;
    } else if numReducers >= numMappers {
      return None;
    }
    PowerOfTwoTest(numReducers);
    if !(And(numReducers, numReducers - 1) == 0 && numReducers != 0) {
      return None;
    }
    hide IsPow2, And, KeyFor, LeftBehind, AreMerges, IsJob, KeysOfJob;
    var parts, hashes := seq(numMappers, input), seq<Hash>(numMappers, hashOf);
    var storage, resultKeys := RunMappers(parts, hashes, parse, numReducers, job);
    KeyCounts(resultKeys, numReducers, job);
    var keys := TransportKeys(resultKeys, numReducers, job, viaLambda);
    TablesMakeJob(parts, hashes, parse, numReducers, job, storage, resultKeys, keys);
    var tables := RunReducers(storage, keys);
    results := Some(tables);
  }

  lemma KeyCounts(resultKeys: seq<seq<string>>, n: nat, job: string)
    requires KeysOfJob(resultKeys, n, job)
    ensures forall i :: 0 <= i < |resultKeys| ==> |resultKeys[i]| == n
  {
  }
}
