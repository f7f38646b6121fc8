/**
 * The prefix cache: a two-level memo table `prefix -> base prefix -> Enum`
 * and the lookup-or-create operation `prefixEnum`.  The process-wide table
 * is threaded through the operation as explicit input and output state.
 */
module PrefixCache {
  import opened Wrappers
  import opened Enums

  /** One bucket of the table: the Enums derived under one prefix, keyed by base prefix. */
  type Bucket = map<string, Enum>

  /** The whole table, keyed first by the requested prefix. */
  type Cache = map<string, Bucket>

  /**
   * The arguments of `prefixEnum`: the Enum whose names are copied, the
   * requested prefix (an absent prefix is the empty string) and the
   * optional `base`, which defaults to `enumMap`.
   */
  datatype Request = Request(enumMap: Enum, prefix: string, base: Option<Enum>)

  /** What `prefixEnum` returns, together with the table after the call. */
  datatype Response = Response(value: Enum, cache: Cache)

  /** The base the request is keyed by: `base` when given, `enumMap` otherwise. */
  function BaseOf(req: Request): Enum
  {
    match req.base
    case Some(b) => b
    case None => req.enumMap
  }

  /** The slot of the table at `(prefix, key)`, if filled. */
  function Slot(cache: Cache, prefix: string, key: string): Option<Enum>
  {
    if prefix in cache && key in cache[prefix] then Some(cache[prefix][key]) else None
  }

  /** `cache'` keeps every filled slot of `cache` with the same Enum in it. */
  ghost predicate Extends(cache: Cache, cache': Cache)
  {
    forall p, k | Slot(cache, p, k).Some? :: Slot(cache', p, k) == Slot(cache, p, k)
  }

  /**
   * The Enum built for an empty slot: the names of `enumMap`, under the
   * prefix `prefix-enumMap.prefix` (which ends in `-` when `enumMap` has no prefix).
   */
  function Derive(enumMap: Enum, prefix: string): (e: Enum)
    ensures e.prefix == prefix + "-" + enumMap.prefix
    ensures e.entries.Keys == enumMap.entries.Keys
    ensures Valid(e)
  {
    FromNames(enumMap.entries.Keys, prefix + "-" + enumMap.prefix)
  }

  /**
   * `prefixEnum`: an empty prefix returns the base untouched; otherwise the
   * bucket for the prefix is created if missing, the slot keyed by the base's
   * prefix is filled with a derived Enum only if it is empty, and the slot's
   * content is returned.
   */
  function PrefixEnum(cache: Cache, req: Request): (r: Response)
    ensures req.prefix == "" ==> r.value == BaseOf(req) && r.cache == cache
    ensures req.prefix != "" ==> Slot(r.cache, req.prefix, BaseOf(req).prefix) == Some(r.value)
    ensures req.prefix != "" && Slot(cache, req.prefix, BaseOf(req).prefix).Some? ==>
      r.value == Slot(cache, req.prefix, BaseOf(req).prefix).value && r.cache == cache
    ensures req.prefix != "" && Slot(cache, req.prefix, BaseOf(req).prefix).None? ==>
      && r.value == Derive(req.enumMap, req.prefix)
      && (forall p, k | Slot(r.cache, p, k) != Slot(cache, p, k) ::
            p == req.prefix && k == BaseOf(req).prefix)
    ensures Extends(cache, r.cache)
  {
    if req.prefix == "" then
      Response(BaseOf(req), cache)
    else
      var bucket := if req.prefix in cache then cache[req.prefix] else map[];
      var key := BaseOf(req).prefix;
      var bucket' := if key in bucket then bucket else bucket[key := Derive(req.enumMap, req.prefix)];
      Response(bucket'[key], cache[req.prefix := bucket'])
  }

  /**
   * Memoization of one call: a second request for the same prefix and base
   * prefix returns the Enum of the first and leaves the table as it is,
   * whatever Enum the second request names as `enumMap`.
   */
  lemma PrefixEnumIdempotent(cache: Cache, req: Request, req': Request)
    requires req.prefix == req'.prefix && BaseOf(req).prefix == BaseOf(req').prefix
    requires req.prefix != ""
    ensures PrefixEnum(PrefixEnum(cache, req).cache, req').value == PrefixEnum(cache, req).value
    ensures PrefixEnum(PrefixEnum(cache, req).cache, req').cache == PrefixEnum(cache, req).cache
  {
  }

  /**
   * The values of a derived Enum in terms of the names it copies: with a
   * non-empty base prefix they are the base's values re-prefixed by the
   * requested prefix; with an empty base prefix the separator doubles.
   */
  lemma DerivedValues(enumMap: Enum, prefix: string, n: string)
    requires Valid(enumMap) && prefix != "" && n in enumMap.entries
    ensures n in Derive(enumMap, prefix).entries
    ensures enumMap.prefix != "" ==>
      Derive(enumMap, prefix).entries[n] == SetPrefix(enumMap.entries[n], prefix)
    ensures enumMap.prefix == "" ==>
      Derive(enumMap, prefix).entries[n] == prefix + "--" + n
  {
    if enumMap.prefix != "" {
      SetPrefixCompose(n, enumMap.prefix, prefix);
    } else {
      assert prefix + "-" + "" + "-" + n == prefix + "--" + n;
    }
  }

  /**
   * Every Enum the table holds is well formed and its prefix starts with
   * the bucket's prefix and a separator.
   */
  ghost predicate WellFormed(cache: Cache)
  {
    forall p, k | Slot(cache, p, k).Some? ::
      Valid(Slot(cache, p, k).value) && IsPrefixOf(p + "-", Slot(cache, p, k).value.prefix)
  }

  /** `prefixEnum` keeps the table well formed. */
  lemma PrefixEnumWellFormed(cache: Cache, req: Request)
    requires WellFormed(cache)
    ensures WellFormed(PrefixEnum(cache, req).cache)
  {
    var r := PrefixEnum(cache, req);
    forall p, k | Slot(r.cache, p, k).Some?
      ensures Valid(Slot(r.cache, p, k).value) && IsPrefixOf(p + "-", Slot(r.cache, p, k).value.prefix)
    {
      if Slot(r.cache, p, k) != Slot(cache, p, k) {
        assert (p + "-" + req.enumMap.prefix)[..|p + "-"|] == p + "-";
      }
    }
  }

  /** The outcome of a sequence of requests: one result per request and the final table. */
  datatype Trace = Trace(results: seq<Enum>, cache: Cache)

  /** Issues the requests in order, threading the table from one call to the next. */
  function Run(cache: Cache, reqs: seq<Request>): (t: Trace)
    ensures |t.results| == |reqs|
    ensures Extends(cache, t.cache)
    decreases |reqs|
  {
    if reqs == [] then Trace([], cache)
    else
      var r := PrefixEnum(cache, reqs[0]);
      var rest := Run(r.cache, reqs[1..]);
      Trace([r.value] + rest.results, rest.cache)
  }

  /** The table stays well formed through any sequence of requests. */
  lemma {:induction false} RunWellFormed(cache: Cache, reqs: seq<Request>)
    requires WellFormed(cache)
    ensures WellFormed(Run(cache, reqs).cache)
    decreases |reqs|
  {
    if reqs != [] {
      PrefixEnumWellFormed(cache, reqs[0]);
      RunWellFormed(PrefixEnum(cache, reqs[0]).cache, reqs[1..]);
    }
  }

  /** A request with a non-empty prefix whose slot is already filled returns the slot's Enum. */
  lemma {:induction false} RunRespectsSlot(cache: Cache, reqs: seq<Request>, p: string, k: string, i: nat)
    requires p != "" && Slot(cache, p, k).Some?
    requires i < |reqs| && reqs[i].prefix == p && BaseOf(reqs[i]).prefix == k
    ensures Run(cache, reqs).results[i] == Slot(cache, p, k).value
    decreases |reqs|
  {
    var r := PrefixEnum(cache, reqs[0]);
    if i > 0 {
      RunRespectsSlot(r.cache, reqs[1..], p, k, i - 1);
    }
  }

  /**
   * Memoization over any sequence of calls: two requests with the same
   * non-empty prefix and the same base prefix return the same Enum.
   */
  lemma {:induction false} RunMemoizes(cache: Cache, reqs: seq<Request>, i: nat, j: nat)
    requires i < j < |reqs|
    requires reqs[i].prefix != "" && reqs[i].prefix == reqs[j].prefix
    requires BaseOf(reqs[i]).prefix == BaseOf(reqs[j]).prefix
    ensures Run(cache, reqs).results[i] == Run(cache, reqs).results[j]
    decreases |reqs|
  {
    var r := PrefixEnum(cache, reqs[0]);
    if i == 0 {
      RunRespectsSlot(r.cache, reqs[1..], reqs[0].prefix, BaseOf(reqs[0]).prefix, j - 1);
    } else {
      RunMemoizes(r.cache, reqs[1..], i - 1, j - 1);
    }
  }
}
