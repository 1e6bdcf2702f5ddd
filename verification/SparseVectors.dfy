/** Term-count vectors of `ingest/ingest.py`, over text that is already in lower case. */
module SparseVectors {
  import opened Fnv

  const MIN_TOKEN_LENGTH: nat := 2

  /** The class `[a-z0-9]`. */
  predicate IsTokenChar(c: char) {
    'a' <= c <= 'z' || '0' <= c <= '9'
  }

  lemma TokenChars(c: char)
    ensures IsTokenChar(c) <==> c in "abcdefghijklmnopqrstuvwxyz0123456789"
  {
  }

  predicate IsToken(t: string) {
    t != [] && forall i :: 0 <= i < |t| ==> IsTokenChar(t[i])
  }

  function RunLength(s: string): (n: nat)
    ensures n <= |s|
    ensures forall i :: 0 <= i < n ==> IsTokenChar(s[i])
    ensures n < |s| ==> !IsTokenChar(s[n])
  {
    if s == [] || !IsTokenChar(s[0]) then 0 else 1 + RunLength(s[1..])
  }

  /** All maximal runs of token characters, in order. */
  function Tokens(s: string): (ts: seq<string>)
    ensures forall i :: 0 <= i < |ts| ==> IsToken(ts[i])
  {
    if s == [] then []
    else if !IsTokenChar(s[0]) then Tokens(s[1..])
    else [s[..RunLength(s)]] + Tokens(s[RunLength(s)..])
  }

  // ----- the tokens are the runs of the text

  /** `t` is a maximal run of token characters of `s` and starts at `i`. */
  ghost predicate IsRun(s: string, i: nat, t: string) {
    && IsToken(t) && i + |t| <= |s| && s[i..i + |t|] == t
    && (i > 0 ==> !IsTokenChar(s[i - 1]))
    && (i + |t| < |s| ==> !IsTokenChar(s[i + |t|]))
  }

  /** `ts` are the runs of `s` in order; `starts` says where they start. */
  ghost predicate AreRuns(s: string, ts: seq<string>, starts: seq<nat>) {
    && |starts| == |ts|
    && (forall k :: 0 <= k < |ts| ==> IsRun(s, starts[k], ts[k]))
    && (forall j, k :: 0 <= j < k < |starts| ==> starts[j] < starts[k])
    && (forall i, t :: IsRun(s, i, t) ==> i in starts)
  }

  /** The tokens of a text are all its maximal runs, each once and in order. */
  lemma {:induction false} TokensAreRuns(s: string)
    ensures exists starts :: AreRuns(s, Tokens(s), starts)
    decreases |s|
  {
    hide AreRuns;
    if s == [] {
      NoRuns();
      assert AreRuns(s, Tokens(s), []);
    } else {
      var n := RunLength(s);
      var d := if n == 0 then 1 else n;
      var ts := Tokens(s[d..]);
      TokensAreRuns(s[d..]);
      var rest :| AreRuns(s[d..], ts, rest);
      if n == 0 {
        RunsAfterGap(s, ts, rest);
        assert AreRuns(s, Tokens(s), Shifted(rest, 1));
      } else {
        RunsAfterRun(s, n, ts, rest);
        assert AreRuns(s, Tokens(s), [0] + Shifted(rest, n));
      }
    }
  }

  lemma NoRuns()
    ensures AreRuns([], [], [])
  {
  }

  function Shifted(starts: seq<nat>, d: nat): seq<nat> {
    seq(|starts|, k requires 0 <= k < |starts| => starts[k] + d)
  }

  /** The runs of the rest of a text are its runs there, if no run goes on across the cut. */
  lemma RunsMove(s: string, d: nat, ts: seq<string>, rest: seq<nat>)
    requires 0 < d <= |s| && (d < |s| ==> !IsTokenChar(s[d - 1]) || !IsTokenChar(s[d]))
    requires AreRuns(s[d..], ts, rest)
    ensures forall k :: 0 <= k < |ts| ==> IsRun(s, Shifted(rest, d)[k], ts[k])
    ensures forall i: nat, t :: d <= i && IsRun(s, i, t) ==> i in Shifted(rest, d)
  {
    hide IsRun;
    forall k | 0 <= k < |ts| ensures IsRun(s, Shifted(rest, d)[k], ts[k]) {
      RunMoves(s, d, rest[k], ts[k]);
    }
    forall i: nat, t | d <= i && IsRun(s, i, t) ensures i in Shifted(rest, d) {
      RunMoves(s, d, i - d, t);
      var k :| 0 <= k < |rest| && rest[k] == i - d;
      assert Shifted(rest, d)[k] == i;
    }
  }

  lemma RunsAfterGap(s: string, ts: seq<string>, rest: seq<nat>)
    requires s != [] && !IsTokenChar(s[0]) && AreRuns(s[1..], ts, rest)
    ensures AreRuns(s, ts, Shifted(rest, 1))
  {
    RunsMove(s, 1, ts, rest);
    hide IsRun;
    forall i: nat, t | IsRun(s, i, t) ensures i >= 1 {
      if i == 0 { FirstRun(s, t); }
    }
  }

  lemma RunsAfterRun(s: string, n: nat, ts: seq<string>, rest: seq<nat>)
    requires n == RunLength(s) > 0 && AreRuns(s[n..], ts, rest)
    ensures AreRuns(s, [s[..n]] + ts, [0] + Shifted(rest, n))
  {
    hide IsRun, RunLength;
    RunsMove(s, n, ts, rest);
    RunHere(s);
    var moved := Shifted(rest, n);
    forall i: nat, t | IsRun(s, i, t) ensures i == 0 || i in moved {
      RunStart(s, i, t);
    }
    OneMoreRun(s, s[..n], ts, moved);
  }

  lemma OneMoreRun(s: string, t: string, ts: seq<string>, moved: seq<nat>)
    requires IsRun(s, 0, t) && |moved| == |ts| && forall k :: 0 <= k < |ts| ==> IsRun(s, moved[k], ts[k])
    requires forall j, k :: 0 <= j < k < |moved| ==> moved[j] < moved[k]
    requires forall k :: 0 <= k < |moved| ==> 0 < moved[k]
    requires forall i: nat, u :: IsRun(s, i, u) ==> i == 0 || i in moved
    ensures AreRuns(s, [t] + ts, [0] + moved)
  {
    hide IsRun;
    var all, starts := [t] + ts, [0] + moved;
    forall k | 0 <= k < |all| ensures IsRun(s, starts[k], all[k]) {
      if k > 0 { assert starts[k] == moved[k - 1] && all[k] == ts[k - 1]; }
    }
    forall i: nat, u | IsRun(s, i, u) ensures i in starts {
      assert i == 0 || i in moved;
    }
  }

  lemma RunStart(s: string, i: nat, t: string)
    requires IsRun(s, i, t)
    ensures i == 0 || i >= RunLength(s)
  {
  }

  lemma RunHere(s: string)
    requires RunLength(s) > 0
    ensures IsRun(s, 0, s[..RunLength(s)])
  {
  }

  lemma FirstRun(s: string, t: string)
    requires IsRun(s, 0, t)
    ensures s != [] && IsTokenChar(s[0])
  {
    assert t[0] == s[0];
  }

  /** A run does not change when the text is cut where no run goes on. */
  lemma RunMoves(s: string, d: nat, i: nat, t: string)
    requires 0 < d <= |s| && (d < |s| ==> !IsTokenChar(s[d - 1]) || !IsTokenChar(s[d]))
    ensures IsRun(s[d..], i, t) <==> IsRun(s, i + d, t)
  {
    if i + d + |t| <= |s| { assert s[d..][i..i + |t|] == s[i + d..i + d + |t|]; }
    if IsRun(s[d..], i, t) { assert t[0] == s[i + d]; }
  }

  // ----- vectors

  function Decode(bytes: seq<Byte>): string {
    seq(|bytes|, i requires 0 <= i < |bytes| => bytes[i] as char)
  }

  /** The UTF-8 bytes of a token, whose characters are all ASCII. */
  function Encode(t: string): (bytes: seq<Byte>)
    requires IsToken(t)
    ensures Decode(bytes) == t
  {
    seq(|t|, i requires 0 <= i < |t| => t[i] as int as Byte)
  }

  function TokenId(t: string): nat
    requires IsToken(t)
  {
    HashFrom(FNV_OFFSET, Encode(t))
  }

  predicate Counted(t: string) {
    |t| >= MIN_TOKEN_LENGTH
  }

  predicate AllTokens(ts: seq<string>) {
    forall i :: 0 <= i < |ts| ==> IsToken(ts[i])
  }

  /** How many of the tokens that are long enough hash to `id`. */
  function Count(ts: seq<string>, id: nat): nat
    requires AllTokens(ts)
  {
    if ts == [] then 0
    else
      var t := ts[|ts| - 1];
      Count(ts[..|ts| - 1], id) + if Counted(t) && TokenId(t) == id then 1 else 0
  }

  function LongTokens(ts: seq<string>): nat {
    if ts == [] then 0 else LongTokens(ts[..|ts| - 1]) + if Counted(ts[|ts| - 1]) then 1 else 0
  }

  datatype SparseVector = SparseVector(indices: seq<nat>, values: seq<nat>)

  ghost predicate Distinct(ids: seq<nat>) {
    forall i, j :: 0 <= i < j < |ids| ==> ids[i] != ids[j]
  }

  function Sum(xs: seq<nat>): nat {
    if xs == [] then 0 else Sum(xs[..|xs| - 1]) + xs[|xs| - 1]
  }

  /** Distinct indices with positive values: at each index the number of tokens hashing to it, and
      no index missing. */
  ghost predicate IsVectorOf(v: SparseVector, ts: seq<string>)
    requires AllTokens(ts)
  {
    && |v.indices| == |v.values|
    && Distinct(v.indices)
    && (forall k :: 0 <= k < |v.indices| ==> v.values[k] == Count(ts, v.indices[k]) > 0)
    && (forall id :: Count(ts, id) > 0 ==> id in v.indices)
  }

  function Values(order: seq<nat>, counts: map<nat, nat>): seq<nat>
    requires forall id :: id in order ==> id in counts
  {
    seq(|order|, k requires 0 <= k < |order| => counts[order[k]])
  }

  /** The dictionary and the insertion order of its keys after the tokens `ts`. */
  ghost predicate Tally(order: seq<nat>, counts: map<nat, nat>, ts: seq<string>)
    requires AllTokens(ts)
  {
    && Distinct(order)
    && (forall id :: id in order <==> id in counts)
    && (forall id :: id in counts ==> counts[id] == Count(ts, id) > 0)
    && (forall id :: Count(ts, id) > 0 ==> id in counts)
  }

  lemma TallyToken(order: seq<nat>, counts: map<nat, nat>, ts: seq<string>, t: string)
    requires AllTokens(ts) && IsToken(t) && Tally(order, counts, ts)
    ensures AllTokens(ts + [t])
    ensures !Counted(t) ==> Tally(order, counts, ts + [t])
    ensures Counted(t) && TokenId(t) in counts ==>
              Tally(order, counts[TokenId(t) := counts[TokenId(t)] + 1], ts + [t])
    ensures Counted(t) && TokenId(t) !in counts ==> Tally(order + [TokenId(t)], counts[TokenId(t) := 1], ts + [t])
  {
    hide TokenId;
    var all := ts + [t];
    assert all[..|ts|] == ts;
  }

  method SparseVectorOf(text: string) returns (v: SparseVector)
    ensures IsVectorOf(v, Tokens(text))
  {
    hide Tally, HashFrom;
    var tokens := Tokens(text);
    var counts: map<nat, nat> := map[];
    var order: seq<nat> := [];
    EmptyTally();
    for i := 0 to |tokens|
      invariant AllTokens(tokens[..i])
      invariant Tally(order, counts, tokens[..i])
    {
      TallyToken(order, counts, tokens[..i], tokens[i]);
      assert tokens[..i + 1] == tokens[..i] + [tokens[i]];
      if |tokens[i]| >= MIN_TOKEN_LENGTH {
        var id := Fnv1a(Encode(tokens[i]));
        if id in counts {
          counts := counts[id := counts[id] + 1];
        } else {
          counts := counts[id := 1];
          order := order + [id];
        }
      }
    }
    assert tokens[..|tokens|] == tokens;
    TallyKeys(order, counts, tokens);
    v := SparseVector(order, Values(order, counts));
  }

  lemma EmptyTally()
    ensures Tally([], map[], [])
  {
  }

  lemma TallyKeys(order: seq<nat>, counts: map<nat, nat>, ts: seq<string>)
    requires AllTokens(ts) && Tally(order, counts, ts)
    ensures forall id :: id in order ==> id in counts
    ensures IsVectorOf(SparseVector(order, Values(order, counts)), ts)
  {
    hide Count;
    assert forall k :: 0 <= k < |order| ==> order[k] in order;
  }

  // ----- the values that `_selfcheck` pins

  const SAMPLE := "cs cs, a!"

  lemma OneToken(t: string)
    requires IsToken(t)
    ensures Tokens(t) == [t]
  {
    WholeRun(t);
    assert t[..|t|] == t && Tokens(t[|t|..]) == [];
  }

  lemma {:induction false} WholeRun(t: string)
    requires IsToken(t)
    ensures RunLength(t) == |t|
  {
    if |t| > 1 { WholeRun(t[1..]); }
  }

  lemma SampleTokens()
    ensures Tokens(SAMPLE) == ["cs", "cs", "a"]
  {
    hide Tokens;
    OneToken("cs");
    OneToken("a");
    NoToken();
    assert Tokens("a!") == ["a"] by { TokensJoin("a", '!', ""); assert "a" + ['!'] + "" == "a!"; }
    assert Tokens(" a!") == ["a"] by { TokensJoin("", ' ', "a!"); assert "" + [' '] + "a!" == " a!"; }
    assert Tokens("cs, a!") == ["cs", "a"] by {
      TokensJoin("cs", ',', " a!");
      assert "cs" + [','] + " a!" == "cs, a!";
    }
    TokensJoin("cs", ' ', "cs, a!");
    assert "cs" + [' '] + "cs, a!" == SAMPLE;
  }

  lemma NoToken()
    ensures Tokens("") == []
  {
  }

  lemma CsId()
    ensures TokenId("cs") == 1177122803
  {
    GoldenCs();
    assert Encode("cs") == [99, 115];
  }

  lemma TwiceAndShort(t: string, u: string, id: nat)
    requires IsToken(t) && IsToken(u) && Counted(t) && !Counted(u)
    ensures Count([t, t, u], id) == if id == TokenId(t) then 2 else 0
  {
    hide TokenId, IsToken;
    assert [t, t, u][..2] == [t, t] && [t, t][..1] == [t] && [t][..0] == [];
    assert Count([], id) == 0;
    assert Count([t], id) == if id == TokenId(t) then 1 else 0;
  }

  function Members(ids: seq<nat>): set<nat> {
    set id | id in ids
  }

  lemma {:induction false} DistinctSize(ids: seq<nat>)
    requires Distinct(ids)
    ensures |Members(ids)| == |ids|
  {
    if ids != [] {
      var front, last := ids[..|ids| - 1], ids[|ids| - 1];
      DistinctSize(front);
      assert Members(ids) == Members(front) + {last};
    }
  }

  lemma OnlyIndex(v: SparseVector, ts: seq<string>, only: nat, n: nat)
    requires AllTokens(ts) && IsVectorOf(v, ts) && n > 0
    requires forall id :: Count(ts, id) == if id == only then n else 0
    ensures v.indices == [only] && v.values == [n]
  {
    hide Count;
    assert Count(ts, only) > 0;
    assert forall k :: 0 <= k < |v.indices| ==> v.indices[k] == only && v.values[k] == n;
    assert Members(v.indices) == {only};
    DistinctSize(v.indices);
  }

  /** The only vector of the sample has the pinned hash of "cs", with the value 2. */
  lemma SampleVector(v: SparseVector)
    requires IsVectorOf(v, Tokens(SAMPLE))
    ensures v.indices == [1177122803] && v.values == [2]
  {
    hide IsVectorOf, TokenId, Tokens, Count;
    SampleTokens();
    CsId();
    forall id ensures Count(Tokens(SAMPLE), id) == if id == 1177122803 then 2 else 0 {
      TwiceAndShort("cs", "a", id);
    }
    OnlyIndex(v, Tokens(SAMPLE), 1177122803, 2);
  }

  // ----- the sum of the values

  /** The counts of some indices, added up. */
  function SumOfCounts(ids: seq<nat>, ts: seq<string>): nat
    requires AllTokens(ts)
  {
    if ids == [] then 0 else SumOfCounts(ids[..|ids| - 1], ts) + Count(ts, ids[|ids| - 1])
  }

  lemma {:induction false} SumIsCounts(ids: seq<nat>, values: seq<nat>, ts: seq<string>)
    requires AllTokens(ts) && |ids| == |values|
    requires forall k :: 0 <= k < |ids| ==> values[k] == Count(ts, ids[k])
    ensures Sum(values) == SumOfCounts(ids, ts)
  {
    hide Count;
    if ids != [] { SumIsCounts(ids[..|ids| - 1], values[..|values| - 1], ts); }
  }

  /** One more token raises exactly one of the counts, if it is long enough and its index is there. */
  lemma {:induction false} SumOfMore(ids: seq<nat>, ts: seq<string>, t: string)
    requires AllTokens(ts) && IsToken(t) && Distinct(ids)
    ensures AllTokens(ts + [t])
    ensures SumOfCounts(ids, ts + [t]) == SumOfCounts(ids, ts) + if Counted(t) && TokenId(t) in ids then 1 else 0
  {
    hide TokenId;
    assert (ts + [t])[..|ts|] == ts;
    if ids != [] {
      var front, last := ids[..|ids| - 1], ids[|ids| - 1];
      SumOfMore(front, ts, t);
      assert ids == front + [last] && last !in front;
    }
  }

  /** Distinct indices that miss no token count every token that is long enough, once. */
  lemma {:induction false} CountsAddUp(ids: seq<nat>, ts: seq<string>)
    requires AllTokens(ts) && Distinct(ids)
    requires forall id :: Count(ts, id) > 0 ==> id in ids
    ensures SumOfCounts(ids, ts) == LongTokens(ts)
  {
    hide TokenId;
    if ts == [] {
      NothingCounted(ids);
    } else {
      var front, t := ts[..|ts| - 1], ts[|ts| - 1];
      assert ts == front + [t];
      assert Counted(t) ==> Count(ts, TokenId(t)) > 0;
      CountsAddUp(ids, front);
      SumOfMore(ids, front, t);
    }
  }

  lemma {:induction false} NothingCounted(ids: seq<nat>)
    ensures SumOfCounts(ids, []) == 0
  {
    if ids != [] { NothingCounted(ids[..|ids| - 1]); }
  }

  /** The values of a vector add up to the number of tokens that are long enough. */
  lemma SumIsLong(v: SparseVector, ts: seq<string>)
    requires AllTokens(ts) && IsVectorOf(v, ts)
    ensures Sum(v.values) == LongTokens(ts)
  {
    hide Count;
    SumIsCounts(v.indices, v.values, ts);
    CountsAddUp(v.indices, ts);
  }

  // ----- joined texts

  /** A separator that is no token character separates: the tokens of the parts, one after the other. */
  lemma {:induction false} TokensJoin(a: string, sep: char, b: string)
    requires !IsTokenChar(sep)
    ensures Tokens(a + [sep] + b) == Tokens(a) + Tokens(b)
    decreases |a|
  {
    var s := a + [sep] + b;
    if a == [] {
      assert s[1..] == b;
    } else if !IsTokenChar(a[0]) {
      assert s[1..] == a[1..] + [sep] + b;
      TokensJoin(a[1..], sep, b);
    } else {
      var n := RunLength(a);
      assert RunLength(s) == n by { RunIs(s, n); }
      assert s[..n] == a[..n] && s[n..] == a[n..] + [sep] + b;
      TokensJoin(a[n..], sep, b);
    }
  }

  lemma {:induction false} RunIs(s: string, n: nat)
    requires n < |s| && !IsTokenChar(s[n])
    requires forall i :: 0 <= i < n ==> IsTokenChar(s[i])
    ensures RunLength(s) == n
  {
    if n > 0 { RunIs(s[1..], n - 1); }
  }

  lemma {:induction false} CountJoin(s: seq<string>, t: seq<string>, id: nat)
    requires AllTokens(s) && AllTokens(t)
    ensures Count(s + t, id) == Count(s, id) + Count(t, id)
    ensures LongTokens(s + t) == LongTokens(s) + LongTokens(t)
  {
    if t == [] {
      assert s + t == s;
    } else {
      CountJoin(s, t[..|t| - 1], id);
      assert (s + t)[..|s + t| - 1] == s + t[..|t| - 1];
    }
  }

  /** The value of a vector at an index, 0 where it has none. */
  function Weight(indices: seq<nat>, values: seq<nat>, id: nat): nat
    requires |indices| == |values|
  {
    if indices == [] then 0
    else if indices[|indices| - 1] == id then values[|values| - 1]
    else Weight(indices[..|indices| - 1], values[..|values| - 1], id)
  }

  lemma {:induction false} WeightAt(indices: seq<nat>, values: seq<nat>, id: nat)
    requires |indices| == |values| && Distinct(indices)
    ensures id !in indices ==> Weight(indices, values, id) == 0
    ensures forall k :: 0 <= k < |indices| && indices[k] == id ==> Weight(indices, values, id) == values[k]
  {
    if indices != [] { WeightAt(indices[..|indices| - 1], values[..|values| - 1], id); }
  }

  lemma WeightIsCount(v: SparseVector, ts: seq<string>, id: nat)
    requires AllTokens(ts) && IsVectorOf(v, ts)
    ensures Weight(v.indices, v.values, id) == Count(ts, id)
  {
    hide Count, Weight;
    WeightAt(v.indices, v.values, id);
    if id in v.indices { var k :| 0 <= k < |v.indices| && v.indices[k] == id; }
  }

  /** The vector of two texts joined by a separator is the sum of their vectors, index by index. */
  lemma VectorsAdd(a: string, sep: char, b: string, u: SparseVector, v: SparseVector, w: SparseVector)
    requires !IsTokenChar(sep)
    requires IsVectorOf(u, Tokens(a)) && IsVectorOf(v, Tokens(b)) && IsVectorOf(w, Tokens(a + [sep] + b))
    ensures forall id ::
              Weight(w.indices, w.values, id) == Weight(u.indices, u.values, id) + Weight(v.indices, v.values, id)
    ensures Sum(w.values) == Sum(u.values) + Sum(v.values)
  {
    assert |u.indices| == |u.values| && |v.indices| == |v.values| && |w.indices| == |w.values|;
    hide Weight, Count, Tokens, IsVectorOf, LongTokens, Sum;
    TokensJoin(a, sep, b);
    SumIsLong(u, Tokens(a));
    SumIsLong(v, Tokens(b));
    SumIsLong(w, Tokens(a + [sep] + b));
    forall id
      ensures Weight(w.indices, w.values, id) == Weight(u.indices, u.values, id) + Weight(v.indices, v.values, id)
    {
      CountJoin(Tokens(a), Tokens(b), id);
      WeightIsCount(u, Tokens(a), id);
      WeightIsCount(v, Tokens(b), id);
      WeightIsCount(w, Tokens(a + [sep] + b), id);
    }
    CountJoin(Tokens(a), Tokens(b), 0);
  }
}
