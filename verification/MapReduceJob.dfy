/** What the reducers of one job hold together. */
module MapReduceJob {
  import opened Bits
  import opened Options
  import opened MapReduce

  function AllLines(parts: seq<seq<string>>): seq<string> {
    if parts == [] then [] else AllLines(parts[..|parts| - 1]) + Lines(parts[|parts| - 1])
  }

  /** The lines of one part after another. */
  lemma LinesOfParts(parts: seq<seq<string>>, part: seq<string>)
    ensures AllLines(parts + [part]) == AllLines(parts) + Lines(part)
    ensures AllLines([]) == []
  {
    assert (parts + [part])[..|parts|] == parts;
  }

  /** Some mapper saw `k` and its hash sends the key to reducer `r`. */
  ghost predicate Sends(parts: seq<seq<string>>, hashes: seq<Hash>, n: nat, r: nat, k: string)
    requires n >= 1 && |parts| == |hashes|
  {
    exists i :: 0 <= i < |parts| && Keyed(Lines(parts[i]), k) && Bucket(hashes[i], k, n) == r
  }

  /** The sum of what the mappers send to reducer `r` for `k`. */
  function SentTotal(parts: seq<seq<string>>, hashes: seq<Hash>, parse: Parser, n: nat, r: nat, k: string): int
    requires n >= 1 && |parts| == |hashes|
  {
    if parts == [] then 0
    else
      var m := |parts| - 1;
      SentTotal(parts[..m], hashes[..m], parse, n, r, k)
      + (if Bucket(hashes[m], k, n) == r then Total(Lines(parts[m]), k, parse) else 0)
  }

  /**
   The result of a job on `parts`, one for each mapper with its own hash: reducer `r` has exactly the
   keys that some mapper sends it, with the sum of what they send.
   */
  ghost predicate IsJob(parts: seq<seq<string>>, hashes: seq<Hash>, parse: Parser, n: nat, results: seq<Table>) {
    && n >= 1 && |parts| == |hashes| && |results| == n
    && forall r, k :: 0 <= r < n ==>
         && (k in results[r] <==> Sends(parts, hashes, n, r, k))
         && (k in results[r] ==> results[r][k] == SentTotal(parts, hashes, parse, n, r, k))
  }

  // ---------- From the mappers' tables ----------

  lemma {:induction false} ColumnSum(
    parts: seq<seq<string>>, hashes: seq<Hash>, parse: Parser, n: nat, r: nat, column: seq<Table>, k: string)
    requires n >= 1 && |parts| == |hashes| == |column|
    requires forall i :: 0 <= i < |parts| ==> IsBucketSum(column[i], Lines(parts[i]), hashes[i], parse, n, r)
    ensures SumAt(column, k) == SentTotal(parts, hashes, parse, n, r, k)
  {
    if parts != [] {
      var m := |parts| - 1;
      ColumnSum(parts[..m], hashes[..m], parse, n, r, column[..m], k);
      assert IsBucketSum(column[m], Lines(parts[m]), hashes[m], parse, n, r);
      if !Keyed(Lines(parts[m]), k) { AbsentKey(Lines(parts[m]), k, parse); }
    }
  }

  lemma ColumnKeys(
    parts: seq<seq<string>>, hashes: seq<Hash>, parse: Parser, n: nat, r: nat, column: seq<Table>, k: string)
    requires n >= 1 && |parts| == |hashes| == |column|
    requires forall i :: 0 <= i < |parts| ==> IsBucketSum(column[i], Lines(parts[i]), hashes[i], parse, n, r)
    ensures (exists i :: 0 <= i < |column| && k in column[i]) <==> Sends(parts, hashes, n, r, k)
  {
    hide Keyed, Total, Bucket, Lines;
    if i :| 0 <= i < |column| && k in column[i] {
      assert Keyed(Lines(parts[i]), k) && Bucket(hashes[i], k, n) == r;
    }
    if i :| 0 <= i < |parts| && Keyed(Lines(parts[i]), k) && Bucket(hashes[i], k, n) == r {
      assert k in column[i];
    }
  }

  /** Merging, for every reducer, the tables that the mappers left for it gives the result of the job. */
  lemma MergesMakeJob(
    parts: seq<seq<string>>, hashes: seq<Hash>, parse: Parser, n: nat, columns: seq<seq<Table>>, results: seq<Table>)
    requires n >= 1 && |parts| == |hashes| && |columns| == |results| == n
    requires forall r :: 0 <= r < n ==> |columns[r]| == |parts| && IsMerge(results[r], columns[r])
    requires forall r, i :: 0 <= r < n && 0 <= i < |parts| ==>
        IsBucketSum(columns[r][i], Lines(parts[i]), hashes[i], parse, n, r)
    ensures IsJob(parts, hashes, parse, n, results)
  {
    hide IsBucketSum, Sends, SentTotal, SumAt;
    forall r, k | 0 <= r < n
      ensures k in results[r] <==> Sends(parts, hashes, n, r, k)
      ensures k in results[r] ==> results[r][k] == SentTotal(parts, hashes, parse, n, r, k)
    {
      ColumnSum(parts, hashes, parse, n, r, columns[r], k);
      ColumnKeys(parts, hashes, parse, n, r, columns[r], k);
    }
  }

  // ---------- Conservation ----------

  /** The sum of what the mappers send to the first `m` reducers. */
  function SentToFirst(parts: seq<seq<string>>, hashes: seq<Hash>, parse: Parser, n: nat, m: nat, k: string): int
    requires n >= 1 && |parts| == |hashes|
  {
    if m == 0 then 0
    else SentToFirst(parts, hashes, parse, n, m - 1, k) + SentTotal(parts, hashes, parse, n, m - 1, k)
  }

  /** The last mapper sends its total to one reducer. */
  lemma {:induction false} LastMapper(
    parts: seq<seq<string>>, hashes: seq<Hash>, parse: Parser, n: nat, m: nat, k: string)
    requires n >= 1 && |parts| == |hashes| && parts != []
    ensures var l := |parts| - 1;
            SentToFirst(parts, hashes, parse, n, m, k) == SentToFirst(parts[..l], hashes[..l], parse, n, m, k)
              + (if Bucket(hashes[l], k, n) < m then Total(Lines(parts[l]), k, parse) else 0)
  {
    if m > 0 {
      LastMapper(parts, hashes, parse, n, m - 1, k);
    }
  }

  lemma {:induction false} NothingSent(parse: Parser, n: nat, m: nat, k: string)
    requires n >= 1
    ensures SentToFirst([], [], parse, n, m, k) == 0
  {
    if m > 0 {
      NothingSent(parse, n, m - 1, k);
    }
  }

  /** Whatever hash each mapper uses: what is sent to all reducers together is what the lines have. */
  lemma {:induction false} SentAltogether(parts: seq<seq<string>>, hashes: seq<Hash>, parse: Parser, n: nat, k: string)
    requires n >= 1 && |parts| == |hashes|
    ensures SentToFirst(parts, hashes, parse, n, n, k) == Total(AllLines(parts), k, parse)
  {
    if parts == [] {
      NothingSent(parse, n, n, k);
    } else {
      var l := |parts| - 1;
      SentAltogether(parts[..l], hashes[..l], parse, n, k);
      LastMapper(parts, hashes, parse, n, n, k);
      TotalConcat(AllLines(parts[..l]), Lines(parts[l]), k, parse);
    }
  }

  /** Nothing is sent for a key that is not sent. */
  lemma {:induction false} NotSent(parts: seq<seq<string>>, hashes: seq<Hash>, parse: Parser, n: nat, r: nat, k: string)
    requires n >= 1 && |parts| == |hashes| && !Sends(parts, hashes, n, r, k)
    ensures SentTotal(parts, hashes, parse, n, r, k) == 0
  {
    hide Keyed, Total, Bucket, Lines;
    if parts != [] {
      var m := |parts| - 1;
      assert forall i :: 0 <= i < m ==> parts[..m][i] == parts[i] && hashes[..m][i] == hashes[i];
      NotSent(parts[..m], hashes[..m], parse, n, r, k);
      if Bucket(hashes[m], k, n) == r { AbsentKey(Lines(parts[m]), k, parse); }
    }
  }

  lemma {:induction false} FirstResults(
    parts: seq<seq<string>>, hashes: seq<Hash>, parse: Parser, n: nat, results: seq<Table>, m: nat, k: string)
    requires IsJob(parts, hashes, parse, n, results) && m <= n
    ensures SumAt(results[..m], k) == SentToFirst(parts, hashes, parse, n, m, k)
  {
    hide Sends, SentTotal;
    if m > 0 {
      FirstResults(parts, hashes, parse, n, results, m - 1, k);
      assert results[..m][..m - 1] == results[..m - 1];
      if k !in results[m - 1] { NotSent(parts, hashes, parse, n, m - 1, k); }
    }
  }

  /**
   Whatever hash each mapper uses, no amount is lost or counted twice: over all reducers, every key
   has its total over all lines of all parts.
   */
  lemma Conserved(
    parts: seq<seq<string>>, hashes: seq<Hash>, parse: Parser, n: nat, results: seq<Table>, k: string)
    requires IsJob(parts, hashes, parse, n, results)
    ensures SumAt(results, k) == Total(AllLines(parts), k, parse)
  {
    FirstResults(parts, hashes, parse, n, results, n, k);
    SentAltogether(parts, hashes, parse, n, k);
    assert results[..n] == results;
  }

  // ---------- One hash ----------

  lemma {:induction false} KeyedSomewhere(parts: seq<seq<string>>, k: string)
    ensures Keyed(AllLines(parts), k) <==> exists i :: 0 <= i < |parts| && Keyed(Lines(parts[i]), k)
  {
    if parts != [] {
      var m := |parts| - 1;
      KeyedSomewhere(parts[..m], k);
      TotalConcat(AllLines(parts[..m]), Lines(parts[m]), k, (_ => None));
      if i :| 0 <= i < m && Keyed(Lines(parts[..m][i]), k) { assert Keyed(Lines(parts[i]), k); }
      if i :| 0 <= i < |parts| && Keyed(Lines(parts[i]), k) { assert i == m || parts[..m][i] == parts[i]; }
    }
  }

  /** All mappers hash alike. */
  ghost predicate SharedHash(hashes: seq<Hash>, hash: Hash) {
    forall i :: 0 <= i < |hashes| ==> hashes[i] == hash
  }

  /** All results in one table; where keys repeated, the later table would win. */
  function Union(results: seq<Table>): Table {
    if results == [] then map[] else Union(results[..|results| - 1]) + results[|results| - 1]
  }

  lemma {:induction false} UnionEntry(results: seq<Table>, k: string, b: nat)
    requires forall r :: 0 <= r < |results| && r != b ==> k !in results[r]
    ensures k in Union(results) <==> b < |results| && k in results[b]
    ensures k in Union(results) ==> Union(results)[k] == results[b][k] == SumAt(results, k)
  {
    if results != [] {
      var m := |results| - 1;
      UnionEntry(results[..m], k, b);
      if b >= m { AbsentFromAll(results[..m], k); }
    }
  }

  /** With one hash, a key is at the reducer of its bucket, if some line has it, and at no other. */
  lemma OnlyInItsBucket(
    parts: seq<seq<string>>, hashes: seq<Hash>, hash: Hash, parse: Parser, n: nat, results: seq<Table>, r: nat,
    k: string)
    requires IsJob(parts, hashes, parse, n, results) && SharedHash(hashes, hash) && r < n
    ensures k in results[r] <==> Keyed(AllLines(parts), k) && Bucket(hash, k, n) == r
    ensures IsPow2(n) ==> (k in results[r] <==> Keyed(AllLines(parts), k) && hash(k) % n == r)
  {
    if IsPow2(n) { BucketIsMod(hash, k, n); }
    hide Keyed, Bucket, Lines, AllLines, SentTotal;
    KeyedSomewhere(parts, k);
    if i :| 0 <= i < |parts| && Keyed(Lines(parts[i]), k) { assert hashes[i] == hash; }
  }

  /**
   With one hash, the reducers share no key, and their tables together are the sequential
   group-by-sum over all lines of all parts.
   */
  lemma SharedHashJob(
    parts: seq<seq<string>>, hashes: seq<Hash>, hash: Hash, parse: Parser, n: nat, results: seq<Table>)
    requires IsJob(parts, hashes, parse, n, results) && SharedHash(hashes, hash)
    ensures forall r, q, k :: 0 <= r < q < n && k in results[r] ==> k !in results[q]
    ensures IsGroupSum(Union(results), AllLines(parts), parse)
  {
    hide Keyed, Total, AllLines, SumAt, Union, Bucket, Sends, SentTotal;
    forall r, k | 0 <= r < n ensures k in results[r] <==> Keyed(AllLines(parts), k) && Bucket(hash, k, n) == r {
      OnlyInItsBucket(parts, hashes, hash, parse, n, results, r, k);
    }
    forall r, q, k | 0 <= r < q < n && k in results[r] ensures k !in results[q] {
      assert Bucket(hash, k, n) == r;
    }
    forall k
      ensures k in Union(results) <==> Keyed(AllLines(parts), k)
      ensures k in Union(results) ==> Union(results)[k] == Total(AllLines(parts), k, parse)
    {
      UnionEntry(results, k, Bucket(hash, k, n));
      Conserved(parts, hashes, parse, n, results, k);
    }
  }
}
