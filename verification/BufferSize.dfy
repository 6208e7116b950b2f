/** The buffer size all audio processors of a chain can work with. */
module BufferSize {
  import opened Words

  const ANY := 1
  const PRIORITIES := 32

  /** The sizes a processor supports, best first. */
  type Sizes = seq<U32>

  /** The processor accepts a size with one of its entries from `k` on. */
  ghost predicate AcceptsFrom(sizes: Sizes, k: nat, v: U32) {
    exists j :: k <= j < |sizes| && (sizes[j] == v || sizes[j] == ANY)
  }

  ghost predicate Accepts(sizes: Sizes, v: U32) { AcceptsFrom(sizes, 0, v) }

  /** Entry `k` of processor `p` is a size, and every processor accepts it from the same priority on. */
  ghost predicate Suggested(lists: seq<Sizes>, k: nat, p: nat) {
    && p < |lists| && k < |lists[p]| && lists[p][k] != ANY
    && forall q | 0 <= q < |lists| :: AcceptsFrom(lists[q], k, lists[p][k])
  }

  /** The order of the search: by priority, then by processor. */
  ghost predicate Before(k: nat, p: nat, k': nat, p': nat) {
    k < k' || (k == k' && p < p')
  }

  ghost predicate NoneBefore(lists: seq<Sizes>, k: nat, p: nat) {
    forall k': nat, p': nat | Before(k', p', k, p) && k' < PRIORITIES :: !Suggested(lists, k', p')
  }

  ghost predicate SupportsAll(sizes: Sizes) {
    exists j :: 0 <= j < |sizes| && j < PRIORITIES && sizes[j] == ANY
  }

  ghost predicate AllSupportAll(lists: seq<Sizes>) {
    forall p | 0 <= p < |lists| :: SupportsAll(lists[p])
  }

  /** The first entry suggested, or else the default if every processor supports all sizes, or else none. */
  ghost predicate Optimal(lists: seq<Sizes>, defaultSize: U32, r: U32) {
    if NoneBefore(lists, PRIORITIES, 0) then r == if AllSupportAll(lists) then defaultSize else 0
    else exists k: nat, p: nat ::
           k < PRIORITIES && Suggested(lists, k, p) && NoneBefore(lists, k, p) && r == lists[p][k]
  }

  /** One suggestion checked against all processors. */
  method CheckSuggestion(lists: seq<Sizes>, sizeIndex: nat, suggestedBufferSize: U32) returns (accepted: bool)
    ensures accepted <==> forall q | 0 <= q < |lists| :: AcceptsFrom(lists[q], sizeIndex, suggestedBufferSize)
  {
    accepted := true;
    for checkProcIndex := 0 to |lists|
      invariant accepted <==>
                forall q | 0 <= q < checkProcIndex :: AcceptsFrom(lists[q], sizeIndex, suggestedBufferSize)
    {
      var sizes := lists[checkProcIndex];
      var singleProcessorAccepted := false;
      var checkSizeIndex := sizeIndex;
      while checkSizeIndex < |sizes|
        invariant sizeIndex <= checkSizeIndex
        invariant singleProcessorAccepted <==>
          exists j :: sizeIndex <= j < checkSizeIndex && j < |sizes| &&
                      (sizes[j] == suggestedBufferSize || sizes[j] == ANY)
      {
        if sizes[checkSizeIndex] == suggestedBufferSize || sizes[checkSizeIndex] == ANY {
          singleProcessorAccepted := true;
        }
        checkSizeIndex := checkSizeIndex + 1;
      }
      assert singleProcessorAccepted <==> AcceptsFrom(sizes, sizeIndex, suggestedBufferSize);
      if !singleProcessorAccepted {
        accepted := false;
      }
    }
  }

  lemma NextProcessor(lists: seq<Sizes>, k: nat, p: nat)
    requires NoneBefore(lists, k, p) && !Suggested(lists, k, p)
    ensures NoneBefore(lists, k, p + 1)
  {
  }

  lemma NextPriority(lists: seq<Sizes>, k: nat)
    requires NoneBefore(lists, k, |lists|)
    ensures NoneBefore(lists, k + 1, 0)
  {
    forall k': nat, p': nat | Before(k', p', k + 1, 0) && k' < PRIORITIES ensures !Suggested(lists, k', p') {
      if p' < |lists| { assert Before(k', p', k, |lists|); }
    }
  }

  method FindOptimalBufferSize(lists: seq<Sizes>, defaultBufferSize: U32) returns (r: U32)
    ensures Optimal(lists, defaultBufferSize, r)
  {
    var processorSupportAll := seq(|lists|, _ => false);
    for sizeIndex := 0 to PRIORITIES
      invariant |processorSupportAll| == |lists|
      invariant NoneBefore(lists, sizeIndex, 0)
      invariant forall p | 0 <= p < |lists| ::
        processorSupportAll[p] <==> exists j :: 0 <= j < |lists[p]| && j < sizeIndex && lists[p][j] == ANY
    {
      for procIndex := 0 to |lists|
        invariant |processorSupportAll| == |lists|
        invariant NoneBefore(lists, sizeIndex, procIndex)
        invariant forall p | 0 <= p < |lists| ::
          processorSupportAll[p] <==>
          exists j :: 0 <= j < |lists[p]| && (j < sizeIndex || (j == sizeIndex && p < procIndex)) && lists[p][j] == ANY
      {
        if sizeIndex < |lists[procIndex]| {
          if lists[procIndex][sizeIndex] == ANY {
            processorSupportAll := processorSupportAll[procIndex := true];
          } else {
            var suggestedBufferSize := lists[procIndex][sizeIndex];
            var suggestionAccepted := CheckSuggestion(lists, sizeIndex, suggestedBufferSize);
            if suggestionAccepted {
              assert Suggested(lists, sizeIndex, procIndex);
              assert Before(sizeIndex, procIndex, PRIORITIES, 0);
              return suggestedBufferSize;
            }
          }
        }
        NextProcessor(lists, sizeIndex, procIndex);
      }
      NextPriority(lists, sizeIndex);
    }
    var supportAll := true;
    for procIndex := 0 to |processorSupportAll|
      invariant supportAll <==> forall p | 0 <= p < procIndex :: SupportsAll(lists[p])
    {
      if !processorSupportAll[procIndex] {
        assert !SupportsAll(lists[procIndex]);
        supportAll := false;
        break;
      }
    }
    if supportAll {
      return defaultBufferSize;
    }
    return 0;
  }

  // ---------- what the result is worth ----------

  /** There is one result only. */
  lemma OptimalUnique(lists: seq<Sizes>, defaultSize: U32, r: U32, s: U32)
    requires Optimal(lists, defaultSize, r) && Optimal(lists, defaultSize, s)
    ensures r == s
  {
    if !NoneBefore(lists, PRIORITIES, 0) {
      var k: nat, p: nat :| k < PRIORITIES && Suggested(lists, k, p) && NoneBefore(lists, k, p) && r == lists[p][k];
      var k': nat, p': nat :|
        k' < PRIORITIES && Suggested(lists, k', p') && NoneBefore(lists, k', p') && s == lists[p'][k'];
      assert !Before(k, p, k', p') && !Before(k', p', k, p);
    }
  }

  /** A size that is found works for every processor, whatever the lists are. */
  lemma OptimalSound(lists: seq<Sizes>, defaultSize: U32, r: U32)
    requires Optimal(lists, defaultSize, r) && r != 0
    ensures forall q | 0 <= q < |lists| :: Accepts(lists[q], r)
  {
    if NoneBefore(lists, PRIORITIES, 0) {
      forall q | 0 <= q < |lists| ensures Accepts(lists[q], r) {
        var j :| 0 <= j < |lists[q]| && j < PRIORITIES && lists[q][j] == ANY;
      }
    } else {
      var k: nat, p: nat :| k < PRIORITIES && Suggested(lists, k, p) && NoneBefore(lists, k, p) && r == lists[p][k];
      forall q | 0 <= q < |lists| ensures Accepts(lists[q], r) {
        var j :| k <= j < |lists[q]| && (lists[q][j] == r || lists[q][j] == ANY);
      }
    }
  }

  /** Entry `k` of processor `p` names a size no processor names at a better priority. */
  ghost predicate BestRank(lists: seq<Sizes>, v: U32, k: nat, p: nat) {
    && p < |lists| && k < |lists[p]| && lists[p][k] == v
    && forall q, j | 0 <= q < |lists| && 0 <= j < |lists[q]| && lists[q][j] == v :: k <= j
  }

  ghost predicate AnyFrom(sizes: Sizes, k: nat) {
    exists j :: k <= j < |sizes| && sizes[j] == ANY
  }

  /** A size named at its best priority `k` can be found: the priority is among those searched, and a processor
      that does not name it supports all sizes at a priority that is no better. */
  ghost predicate Findable(lists: seq<Sizes>, v: U32, k: nat) {
    && v != ANY && k < PRIORITIES
    && forall q | 0 <= q < |lists| :: v in lists[q] || AnyFrom(lists[q], k)
  }

  /** A size is suggested at some priority exactly when it can be found at its best one. */
  lemma SuggestedExactly(lists: seq<Sizes>, v: U32, k: nat, p: nat)
    requires BestRank(lists, v, k, p)
    ensures Findable(lists, v, k) <==> k < PRIORITIES && Suggested(lists, k, p)
    ensures Findable(lists, v, k) <==>
            exists k': nat, p': nat :: k' < PRIORITIES && Suggested(lists, k', p') && lists[p'][k'] == v
  {
    if Findable(lists, v, k) {
      forall q | 0 <= q < |lists| ensures AcceptsFrom(lists[q], k, v) {
        FoundFrom(lists[q], k, v);
      }
    }
    if k': nat, p': nat :| k' < PRIORITIES && Suggested(lists, k', p') && lists[p'][k'] == v {
      forall q | 0 <= q < |lists| ensures v in lists[q] || AnyFrom(lists[q], k) {
        var j :| k' <= j < |lists[q]| && (lists[q][j] == v || lists[q][j] == ANY);
      }
    }
  }

  lemma FoundFrom(sizes: Sizes, k: nat, v: U32)
    requires v in sizes || AnyFrom(sizes, k)
    requires forall j | 0 <= j < |sizes| && sizes[j] == v :: k <= j
    ensures AcceptsFrom(sizes, k, v)
  {
    if v in sizes {
      var j :| 0 <= j < |sizes| && sizes[j] == v;
    } else {
      var j :| k <= j < |sizes| && sizes[j] == ANY;
    }
  }

  /** Whenever a size can be found one is, and none that can be found is named at a better priority. */
  lemma OptimalComplete(lists: seq<Sizes>, defaultSize: U32, r: U32, v: U32, k: nat, p: nat)
    requires Optimal(lists, defaultSize, r) && BestRank(lists, v, k, p) && Findable(lists, v, k)
    ensures exists k': nat, p': nat :: BestRank(lists, r, k', p') && Findable(lists, r, k') && k' <= k
  {
    SuggestedExactly(lists, v, k, p);
    assert Before(k, p, PRIORITIES, 0);
    var k': nat, p': nat :|
        k' < PRIORITIES && Suggested(lists, k', p') && NoneBefore(lists, k', p') && r == lists[p'][k'];
    assert !Before(k, p, k', p');
    forall q, j | 0 <= q < |lists| && 0 <= j < |lists[q]| && lists[q][j] == r ensures k' <= j {
      if j < k' {
        Earlier(lists, r, k', p', q, j);
        assert Before(j, q, k', p');
      }
    }
    assert BestRank(lists, r, k', p');
    SuggestedExactly(lists, r, k', p');
    assert Findable(lists, r, k') && k' <= k;
  }

  /** A size suggested is suggested wherever it is named at a better priority, too. */
  lemma Earlier(lists: seq<Sizes>, v: U32, k: nat, p: nat, q: nat, j: nat)
    requires Suggested(lists, k, p) && lists[p][k] == v
    requires q < |lists| && j < |lists[q]| && lists[q][j] == v && j < k
    ensures Suggested(lists, j, q)
  {
    forall o | 0 <= o < |lists| ensures AcceptsFrom(lists[o], j, v) {
      var i :| k <= i < |lists[o]| && (lists[o][i] == v || lists[o][i] == ANY);
    }
  }

  /** Without 1, which stands for any size, and with at most 32 entries, the search fails only if no size
      is common to all. */
  lemma CommonFound(lists: seq<Sizes>, defaultSize: U32, r: U32, v: U32)
    requires Optimal(lists, defaultSize, r) && lists != []
    requires forall q | 0 <= q < |lists| :: 1 !in lists[q] && |lists[q]| <= 32 && v in lists[q]
    ensures forall q | 0 <= q < |lists| :: r in lists[q]
  {
    var k0 :| 0 <= k0 < |lists[0]| && lists[0][k0] == v;
    var k, p := SomeBest(lists, v, k0, 0);
    OptimalComplete(lists, defaultSize, r, v, k, p);
    var k': nat, p': nat :| BestRank(lists, r, k', p') && Findable(lists, r, k') && k' <= k;
    forall q | 0 <= q < |lists| ensures r in lists[q] {
      var sizes := lists[q];
      assert !AnyFrom(sizes, k');
    }
  }

  lemma SomeBest(lists: seq<Sizes>, v: U32, k0: nat, p0: nat) returns (k: nat, p: nat)
    requires p0 < |lists| && k0 < |lists[p0]| && lists[p0][k0] == v
    ensures BestRank(lists, v, k, p)
  {
    k, p := k0, p0;
    while !BestRank(lists, v, k, p)
      invariant p < |lists| && k < |lists[p]| && lists[p][k] == v
      decreases k
    {
      var q, j :| 0 <= q < |lists| && 0 <= j < |lists[q]| && lists[q][j] == v && j < k;
      k, p := j, q;
    }
  }

  /** The search ends without a suggestion exactly when no size can be found. */
  lemma FoundExactly(lists: seq<Sizes>)
    ensures !NoneBefore(lists, PRIORITIES, 0) <==>
            exists v: U32, k: nat, p: nat :: BestRank(lists, v, k, p) && Findable(lists, v, k)
  {
    if v: U32, k: nat, p: nat :| BestRank(lists, v, k, p) && Findable(lists, v, k) {
      SuggestedExactly(lists, v, k, p);
      assert Before(k, p, PRIORITIES, 0);
    }
    if !NoneBefore(lists, PRIORITIES, 0) {
      var k0: nat, p0: nat :| k0 < PRIORITIES && Suggested(lists, k0, p0);
      var v := lists[p0][k0];
      var k, p := SomeBest(lists, v, k0, p0);
      SuggestedExactly(lists, v, k, p);
      assert BestRank(lists, v, k, p) && Findable(lists, v, k);
    }
  }

  lemma NotSuggested(lists: seq<Sizes>, k: nat, p: nat)
    requires lists == [[512, 256], [128, 256], [ANY]]
    ensures !Suggested(lists, k, p)
  {
    if k > 0 {
      assert !AcceptsFrom(lists[2], k, if p < |lists| && k < |lists[p]| then lists[p][k] else 0);
    } else if p == 0 {
      assert !AcceptsFrom(lists[1], 0, 512);
    } else if p == 1 {
      assert !AcceptsFrom(lists[0], 0, 128);
    }
  }

  /** With `ANY` the search can miss a common size: two processors agree on 256 at their second entry only,
      and the third one, which supports everything, says so in its first. */
  lemma CommonMissed(defaultSize: U32, r: U32)
    requires Optimal([[512, 256], [128, 256], [1]], defaultSize, r)
    ensures r == 0
    ensures forall q | 0 <= q < 3 :: Accepts([[512, 256], [128, 256], [1]][q], 256)
  {
    var lists: seq<Sizes> := [[512, 256], [128, 256], [ANY]];
    assert lists[0][1] == 256 && lists[1][1] == 256 && lists[2][0] == ANY;
    forall k: nat, p: nat ensures !Suggested(lists, k, p) {
      NotSuggested(lists, k, p);
    }
    assert !SupportsAll(lists[0]);
  }

  /** A common size is missed, too, when it is named only behind the 32nd entry. */
  lemma LateMissed(lists: seq<Sizes>, defaultSize: U32, r: U32)
    requires lists == [seq(32, _ => 512) + [256], seq(32, _ => 128) + [256]] && Optimal(lists, defaultSize, r)
    ensures r == 0
    ensures Accepts(lists[0], 256) && Accepts(lists[1], 256)
  {
    assert lists[0][32] == 256 && lists[1][32] == 256;
    forall k: nat, p: nat | k < PRIORITIES ensures !Suggested(lists, k, p) {
      assert !AcceptsFrom(lists[1], k, 512) && !AcceptsFrom(lists[0], k, 128);
    }
    assert !SupportsAll(lists[0]);
  }

  /** The default is taken if every processor has something to name, and names nothing but 1. */
  lemma DefaultTaken(lists: seq<Sizes>, defaultSize: U32, r: U32)
    requires Optimal(lists, defaultSize, r)
    requires forall q | 0 <= q < |lists| :: lists[q] != [] && forall j | 0 <= j < |lists[q]| :: lists[q][j] == 1
    ensures r == defaultSize
  {
    forall p | 0 <= p < |lists| ensures SupportsAll(lists[p]) {
      assert lists[p][0] == 1;
    }
  }

  /** A first choice of the first processor that all others accept is taken. */
  lemma FirstChoiceTaken(lists: seq<Sizes>, defaultSize: U32, r: U32)
    requires Optimal(lists, defaultSize, r) && lists != [] && lists[0] != [] && lists[0][0] != 1
    requires forall q | 0 <= q < |lists| :: exists j :: 0 <= j < |lists[q]| && lists[q][j] in [lists[0][0], 1]
    ensures r == lists[0][0]
  {
    forall q | 0 <= q < |lists| ensures AcceptsFrom(lists[q], 0, lists[0][0]) {
      var j :| 0 <= j < |lists[q]| && lists[q][j] in [lists[0][0], 1];
    }
    assert Suggested(lists, 0, 0) && Before(0, 0, PRIORITIES, 0);
    assert forall k: nat, p: nat :: Before(0, 0, k, p) || (k == 0 && p == 0);
  }
}
