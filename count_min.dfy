/**
 * The count-min sketch object: a flat row-major table of
 * `num_hashes * num_buckets` counters, updated in place, with a running total
 * weight. The ghost field `History` is the stream of weighted items the
 * sketch summarises; `Valid()` ties the table and the total to it.
 */
module CountMin {
  import opened Words
  import opened CountMinSpec

  datatype MergeError = SelfMerge | IncompatibleConfig

  /** What `merge` reports: success, or the `std::invalid_argument` it throws. */
  datatype MergeOutcome = Merged | Failed(error: MergeError)

  class CountMinSketch {
    const numHashes: u64
    const numBuckets: u64
    const seed: u64
    /** The counters; cell `(row, col)` is `sketch[row * numBuckets + col]`. */
    const sketch: array<int>
    var totalWeight: int
    /** Every weighted item that reached the table, oldest first. */
    ghost var History: seq<WeightedItem>

    function Cfg(): (r: Config) {
      Config(numHashes, numBuckets, seed)
    }

    ghost predicate Valid()
      reads this, sketch
    {
      && Cfg().Valid()
      && sketch.Length == Cfg().Size()
      && sketch[..] == Ingest(Cfg(), Zeros(Cfg().Size()), History)
      && totalWeight == TotalWeight(History)
    }

    constructor (numHashes: u64, numBuckets: u64, seed: u64)
      requires numBuckets >= 3
      ensures Valid() && fresh(sketch)
      ensures this.numHashes == numHashes && this.numBuckets == numBuckets && this.seed == seed
      ensures sketch.Length == numHashes as int * numBuckets as int
      ensures forall c :: 0 <= c < sketch.Length ==> sketch[c] == 0
      ensures totalWeight == 0 && History == []
    {
      this.numHashes := numHashes;
      this.numBuckets := numBuckets;
      this.seed := seed;
      var size := numHashes as int * numBuckets as int;
      sketch := new int[size](_ => 0);
      totalWeight := 0;
      History := [];
      new;
      assert sketch[..] == Zeros(size);
    }

    function GetNumHashes(): (r: u64)
      ensures r == numHashes
    {
      numHashes
    }

    function GetNumBuckets(): (r: u64)
      ensures r == numBuckets
    {
      numBuckets
    }

    function GetSeed(): (r: u64)
      ensures r == seed
    {
      seed
    }

    /**
     * `[num_hashes, num_buckets, seed]`: two sketches have equal
     * configuration vectors exactly when their configurations agree.
     */
    function GetConfig(): (r: seq<u64>)
      ensures |r| == 3 && r[0] == numHashes && r[1] == numBuckets && r[2] == seed
    {
      [numHashes, numBuckets, seed]
    }

    /** A copy of the table: the ingestion of the whole stream into zeroed cells. */
    function GetSketch(): (r: seq<int>)
      reads this, sketch
      requires Valid()
      ensures |r| == numHashes as int * numBuckets as int
      ensures r == Ingest(Cfg(), Zeros(Cfg().Size()), History)
    {
      sketch[..]
    }

    /** The sum of every weight ever added, not the sum of the cells. */
    function GetTotalWeight(): (r: int)
      reads this, sketch
      requires Valid()
      ensures r == TotalWeight(History)
    {
      totalWeight
    }

    /**
     * The locations of `item`: row `i` takes the running double hash
     * `h1 + (0 + ... + i) * h2` modulo `num_buckets`.
     */
    method GetHashes(item: seq<u8>) returns (locations: seq<nat>)
      requires Cfg().Valid()
      ensures locations == ItemLocations(Cfg(), item)
      ensures OnePerRow(locations, numHashes as nat, numBuckets as nat)
      ensures InBounds(locations, Cfg().Size()) && Distinct(locations)
    {
      var hashes := Murmur3(item, seed);
      var nb := numBuckets as int;
      var hash := hashes.h1;
      locations := [];
      var hashIdx := 0;
      while hashIdx < numHashes as int
        invariant 0 <= hashIdx <= numHashes as int
        invariant locations == Locations(hashes, hashIdx, nb)
        invariant hash == if hashIdx == 0 then hashes.h1 else RowHash(hashes, hashIdx - 1)
      {
        hash := AddU64(hash, MulU64(hashIdx as u64, hashes.h2));
        if hashIdx > 0 {
          RowHashStep(hashes, hashIdx);
        }
        var bucketIndex := hash as int % nb;
        LocationsSnoc(hashes, hashIdx, nb);
        locations := locations + [hashIdx * nb + bucketIndex];
        hashIdx := hashIdx + 1;
      }
      ItemLocationsOnePerRow(Cfg(), item);
    }

    /**
     * `update(const void*, size_t, T)`: adds `weight` to the total and to the
     * item's cell in every row; no other cell changes.
     */
    method Update(item: seq<u8>, weight: int)
      requires Valid()
      modifies this, sketch
      ensures Valid()
      ensures totalWeight == old(totalWeight) + weight
      ensures sketch[..] == AddAt(old(sketch[..]), ItemLocations(Cfg(), item), weight)
      ensures History == old(History) + [WeightedItem(item, weight)]
    {
      totalWeight := totalWeight + weight;
      var hashLocations := GetHashes(item);
      AddToCells(hashLocations, weight);
      IngestSnoc(Cfg(), Zeros(Cfg().Size()), History, WeightedItem(item, weight));
      History := History + [WeightedItem(item, weight)];
    }

    /** The loop of `update`: adds `weight` to each of the given distinct cells. */
    method AddToCells(locs: seq<nat>, weight: int)
      requires Distinct(locs) && InBounds(locs, sketch.Length)
      modifies sketch
      ensures sketch[..] == AddAt(old(sketch[..]), locs, weight)
    {
      ghost var t0 := sketch[..];
      var k := 0;
      while k < |locs|
        invariant 0 <= k <= |locs|
        invariant sketch[..] == AddAt(t0, locs[..k], weight)
      {
        AddAtStep(t0, locs, k, weight);
        sketch[locs[k]] := sketch[locs[k]] + weight;
        k := k + 1;
      }
      assert locs[..k] == locs;
    }

    /** `update(uint64_t, T)`: the item is the 8 bytes of the integer. */
    method UpdateU64(item: u64, weight: int)
      requires Valid()
      modifies this, sketch
      ensures Valid()
      ensures totalWeight == old(totalWeight) + weight
      ensures sketch[..] == AddAt(old(sketch[..]), ItemLocations(Cfg(), U64Bytes(item)), weight)
      ensures History == old(History) + [WeightedItem(U64Bytes(item), weight)]
    {
      Update(U64Bytes(item), weight);
    }

    /** `update(uint64_t)`: weight 1. */
    method UpdateU64Unit(item: u64)
      requires Valid()
      modifies this, sketch
      ensures Valid()
      ensures totalWeight == old(totalWeight) + 1
      ensures sketch[..] == AddAt(old(sketch[..]), ItemLocations(Cfg(), U64Bytes(item)), 1)
      ensures History == old(History) + [WeightedItem(U64Bytes(item), 1)]
    {
      Update(U64Bytes(item), 1);
    }

    /** `update(const std::string&, T)`: the empty string is never inserted. */
    method UpdateString(item: seq<u8>, weight: int)
      requires Valid()
      modifies this, sketch
      ensures Valid()
      ensures |item| == 0 ==> totalWeight == old(totalWeight) && sketch[..] == old(sketch[..]) && History == old(History)
      ensures |item| > 0 ==> totalWeight == old(totalWeight) + weight
      ensures |item| > 0 ==> sketch[..] == AddAt(old(sketch[..]), ItemLocations(Cfg(), item), weight)
      ensures |item| > 0 ==> History == old(History) + [WeightedItem(item, weight)]
    {
      if |item| == 0 {
        return;
      }
      Update(item, weight);
    }

    /** `update(const std::string&)`: weight 1; the empty string is never inserted. */
    method UpdateStringUnit(item: seq<u8>)
      requires Valid()
      modifies this, sketch
      ensures Valid()
      ensures |item| == 0 ==> totalWeight == old(totalWeight) && sketch[..] == old(sketch[..]) && History == old(History)
      ensures |item| > 0 ==> totalWeight == old(totalWeight) + 1
      ensures |item| > 0 ==> sketch[..] == AddAt(old(sketch[..]), ItemLocations(Cfg(), item), 1)
      ensures |item| > 0 ==> History == old(History) + [WeightedItem(item, 1)]
    {
      if |item| == 0 {
        return;
      }
      Update(item, 1);
    }

    /**
     * `get_estimate(const void*, size_t)`: the least of the item's cells. With
     * non-negative weights it is never below the item's true weight.
     */
    method GetEstimate(item: seq<u8>) returns (r: int)
      requires Valid() && numHashes > 0
      ensures InBounds(ItemLocations(Cfg(), item), sketch.Length)
      ensures r == Estimate(Cfg(), sketch[..], item)
      ensures forall k :: 0 <= k < numHashes as nat ==> r <= sketch[ItemLocations(Cfg(), item)[k]]
      ensures exists k :: 0 <= k < numHashes as nat && r == sketch[ItemLocations(Cfg(), item)[k]]
      ensures NonNegativeWeights(History) ==> r >= TrueWeight(History, item)
    {
      var hashLocations := GetHashes(item);
      var estimates: seq<int> := [];
      var k := 0;
      while k < |hashLocations|
        invariant 0 <= k <= |hashLocations|
        invariant |estimates| == k
        invariant forall j :: 0 <= j < k ==> estimates[j] == sketch[hashLocations[j]]
      {
        estimates := estimates + [sketch[hashLocations[k]]];
        k := k + 1;
      }
      assert estimates == Cells(sketch[..], hashLocations);
      r := MinOf(estimates);
      EstimateIsMinimumCell(Cfg(), sketch[..], item);
      if NonNegativeWeights(History) {
        EstimateNeverUndercounts(Cfg(), History, item);
      }
    }

    /** `get_estimate(uint64_t)`. */
    method GetEstimateU64(item: u64) returns (r: int)
      requires Valid() && numHashes > 0
      ensures r == Estimate(Cfg(), sketch[..], U64Bytes(item))
      ensures NonNegativeWeights(History) ==> r >= TrueWeight(History, U64Bytes(item))
    {
      r := GetEstimate(U64Bytes(item));
    }

    /** `get_estimate(const std::string&)`: 0 for the empty string, without consulting the table. */
    method GetEstimateString(item: seq<u8>) returns (r: int)
      requires Valid() && (|item| > 0 ==> numHashes > 0)
      ensures |item| == 0 ==> r == 0
      ensures |item| > 0 ==> r == Estimate(Cfg(), sketch[..], item)
      ensures |item| > 0 && NonNegativeWeights(History) ==> r >= TrueWeight(History, item)
    {
      if |item| == 0 {
        return 0;
      }
      r := GetEstimate(item);
    }

    /** `get_lower_bound(const void*, size_t)`: the estimate itself, which never undercounts. */
    method GetLowerBound(item: seq<u8>) returns (r: int)
      requires Valid() && numHashes > 0
      ensures r == Estimate(Cfg(), sketch[..], item)
      ensures NonNegativeWeights(History) ==> TrueWeight(History, item) <= r
    {
      r := GetEstimate(item);
    }

    /** `get_lower_bound(uint64_t)`. */
    method GetLowerBoundU64(item: u64) returns (r: int)
      requires Valid() && numHashes > 0
      ensures r == Estimate(Cfg(), sketch[..], U64Bytes(item))
      ensures NonNegativeWeights(History) ==> TrueWeight(History, U64Bytes(item)) <= r
    {
      r := GetLowerBound(U64Bytes(item));
    }

    /** `get_lower_bound(const std::string&)`: 0 for the empty string. */
    method GetLowerBoundString(item: seq<u8>) returns (r: int)
      requires Valid() && (|item| > 0 ==> numHashes > 0)
      ensures |item| == 0 ==> r == 0
      ensures |item| > 0 ==> r == Estimate(Cfg(), sketch[..], item)
      ensures |item| > 0 && NonNegativeWeights(History) ==> TrueWeight(History, item) <= r
    {
      if |item| == 0 {
        return 0;
      }
      r := GetLowerBound(item);
    }

    /**
     * `merge(other)`: refuses the sketch itself and any sketch of another
     * configuration, leaving everything unchanged; otherwise adds the other
     * table cell by cell and its total weight, and leaves `other` untouched.
     */
    method Merge(other: CountMinSketch) returns (outcome: MergeOutcome)
      requires Valid() && other.Valid()
      requires other == this || other.sketch != sketch
      modifies this, sketch
      ensures Valid()
      ensures outcome == if other == this then Failed(SelfMerge)
                         else if other.Cfg() != Cfg() then Failed(IncompatibleConfig)
                         else Merged
      ensures outcome.Failed? ==>
                sketch[..] == old(sketch[..]) && totalWeight == old(totalWeight) && History == old(History)
      ensures outcome == Merged ==>
                && sketch[..] == CellSum(old(sketch[..]), old(other.sketch[..]))
                && totalWeight == old(totalWeight) + old(other.totalWeight)
                && History == old(History) + old(other.History)
      ensures other.sketch[..] == old(other.sketch[..]) && other.totalWeight == old(other.totalWeight)
      ensures other.History == old(other.History)
    {
      if other == this {
        return Failed(SelfMerge);
      }
      var sameSketchConfig := GetConfig() == other.GetConfig();
      if !sameSketchConfig {
        return Failed(IncompatibleConfig);
      }
      var otherTable := other.sketch[..];
      ghost var before := sketch[..];
      var n := numHashes as int * numBuckets as int;
      var i := 0;
      while i < n
        invariant 0 <= i <= n
        modifies sketch
        invariant forall c :: 0 <= c < i ==> sketch[c] == old(sketch[c]) + otherTable[c]
        invariant forall c :: i <= c < n ==> sketch[c] == old(sketch[c])
      {
        sketch[i] := sketch[i] + otherTable[i];
        i := i + 1;
      }
      assert sketch[..] == CellSum(before, otherTable);
      MergeIsIngestingBoth(Cfg(), History, other.History);
      assert sketch[..] == Ingest(Cfg(), Zeros(Cfg().Size()), History + other.History);
      totalWeight := totalWeight + other.totalWeight;
      TotalWeightAppend(History, other.History);
      History := History + other.History;
      outcome := Merged;
    }
  }
}
