/** European options and their payoffs at maturity. Every variant stores its
    maturity T and its strike array K sorted ascending; a payoff that reads a
    strike the array does not have fails (None), as the array access does. */
module Options {
  import opened Wrappers
  import opened Sorting

  datatype Kind = Call | Put | BullSpread | BearSpread | StrangleSpread

  datatype EuropeanOption = EuropeanOption(kind: Kind, T: real, K: seq<real>)

  /** The constructor shared by all variants: stores T and sorts the strikes. */
  function NewOption(kind: Kind, T: real, strikes: seq<real>): (o: EuropeanOption)
    ensures o.kind == kind && o.T == T
    ensures Sorted(o.K)
    ensures multiset(o.K) == multiset(strikes)
  {
    EuropeanOption(kind, T, Sort(strikes))
  }

  function Max(x: real, y: real): real {
    if x >= y then x else y
  }

  /** Call: S - K[0] above the strike, 0 otherwise; K[0] is read first. */
  function CallPayoff(K: seq<real>, S: real): (r: Option<real>)
    ensures r.Some? <==> |K| >= 1
    ensures r.Some? ==> r.value == Max(S - K[0], 0.0)
  {
    if |K| < 1 then None
    else if S > K[0] then Some(S - K[0])
    else Some(0.0)
  }

  /** Put: K[0] - S below the strike, 0 otherwise; K[0] is read first. */
  function PutPayoff(K: seq<real>, S: real): (r: Option<real>)
    ensures r.Some? <==> |K| >= 1
    ensures r.Some? ==> r.value == Max(K[0] - S, 0.0)
  {
    if |K| < 1 then None
    else if S < K[0] then Some(K[0] - S)
    else Some(0.0)
  }

  /** Bull spread: K[1] - K[0] at or above K[1], S - K[0] strictly between
      the strikes, 0 otherwise. The first test reads K[1]. */
  function BullSpreadPayoff(K: seq<real>, S: real): (r: Option<real>)
    ensures r.Some? <==> |K| >= 2
    ensures r.Some? && K[0] <= K[1] ==> 0.0 <= r.value <= K[1] - K[0]
  {
    if |K| < 2 then None
    else if S >= K[1] then Some(K[1] - K[0])
    else if S < K[1] && S > K[0] then Some(S - K[0])
    else Some(0.0)
  }

  /** Bear spread: K[1] - K[0] at or below K[0], K[1] - S strictly between
      the strikes, 0 otherwise. Every path reads K[1]. */
  function BearSpreadPayoff(K: seq<real>, S: real): (r: Option<real>)
    ensures r.Some? <==> |K| >= 2
    ensures r.Some? && K[0] <= K[1] ==> 0.0 <= r.value <= K[1] - K[0]
  {
    if |K| < 1 then None
    else if S <= K[0] then (if |K| < 2 then None else Some(K[1] - K[0]))
    else if |K| < 2 then None
    else if S < K[1] && S > K[0] then Some(K[1] - S)
    else Some(0.0)
  }

  /** Strangle: K[0] - S below K[0], S - K[1] above K[1], 0 in between.
      K[1] is read only when S is not below K[0], so a single strike still
      prices the lower leg. */
  function StranglePayoff(K: seq<real>, S: real): (r: Option<real>)
    ensures r.Some? <==> |K| >= 2 || (|K| == 1 && S < K[0])
    ensures r.Some? && (|K| >= 2 ==> K[0] <= K[1]) ==> r.value >= 0.0
  {
    if |K| < 1 then None
    else if S < K[0] then Some(K[0] - S)
    else if |K| < 2 then None
    else if S > K[1] then Some(S - K[1])
    else Some(0.0)
  }

  /** Dispatch over the variants, the single capability every option shares. */
  function Payoff(o: EuropeanOption, S: real): Option<real> {
    match o.kind
    case Call => CallPayoff(o.K, S)
    case Put => PutPayoff(o.K, S)
    case BullSpread => BullSpreadPayoff(o.K, S)
    case BearSpread => BearSpreadPayoff(o.K, S)
    case StrangleSpread => StranglePayoff(o.K, S)
  }

  // ---------------------------------------------------------------------
  // Properties relating the payoffs

  /** Put-call parity on payoffs: Call(K) - Put(K) = S - K[0]. */
  lemma PutCallParity(K: seq<real>, S: real)
    requires |K| >= 1
    ensures CallPayoff(K, S).Some? && PutPayoff(K, S).Some?
    ensures CallPayoff(K, S).value - PutPayoff(K, S).value == S - K[0]
  {
  }

  /** A bull spread and a bear spread on the same sorted strikes add up to
      the constant K[1] - K[0]. */
  lemma BullPlusBear(K: seq<real>, S: real)
    requires |K| >= 2 && K[0] <= K[1]
    ensures BullSpreadPayoff(K, S).Some? && BearSpreadPayoff(K, S).Some?
    ensures BullSpreadPayoff(K, S).value + BearSpreadPayoff(K, S).value == K[1] - K[0]
  {
  }

  /** A bull spread is a long call at K[0] and a short call at K[1]. */
  lemma BullIsCallSpread(K: seq<real>, S: real)
    requires |K| >= 2 && K[0] <= K[1]
    ensures BullSpreadPayoff(K, S) == Some(CallPayoff([K[0]], S).value - CallPayoff([K[1]], S).value)
  {
  }

  /** A bear spread is a long put at K[1] and a short put at K[0]. */
  lemma BearIsPutSpread(K: seq<real>, S: real)
    requires |K| >= 2 && K[0] <= K[1]
    ensures BearSpreadPayoff(K, S) == Some(PutPayoff([K[1]], S).value - PutPayoff([K[0]], S).value)
  {
  }

  /** A strangle on sorted strikes is a put at K[0] plus a call at K[1]. */
  lemma StrangleIsPutPlusCall(K: seq<real>, S: real)
    requires |K| >= 2 && K[0] <= K[1]
    ensures StranglePayoff(K, S) == Some(PutPayoff([K[0]], S).value + CallPayoff([K[1]], S).value)
  {
  }

  /** The call payoff is non-decreasing in the asset price. */
  lemma CallMonotone(K: seq<real>, S: real, S': real)
    requires |K| >= 1 && S <= S'
    ensures CallPayoff(K, S).value <= CallPayoff(K, S').value
  {
  }

  /** The put payoff is non-increasing in the asset price. */
  lemma PutMonotone(K: seq<real>, S: real, S': real)
    requires |K| >= 1 && S <= S'
    ensures PutPayoff(K, S).value >= PutPayoff(K, S').value
  {
  }

  /** On sorted strikes the bull spread is non-decreasing in S. */
  lemma BullMonotone(K: seq<real>, S: real, S': real)
    requires |K| >= 2 && K[0] <= K[1] && S <= S'
    ensures BullSpreadPayoff(K, S).value <= BullSpreadPayoff(K, S').value
  {
  }

  /** On sorted strikes the bear spread is non-increasing in S. */
  lemma BearMonotone(K: seq<real>, S: real, S': real)
    requires |K| >= 2 && K[0] <= K[1] && S <= S'
    ensures BearSpreadPayoff(K, S).value >= BearSpreadPayoff(K, S').value
  {
  }

  /** Whatever order the strikes are given in, a call only uses the
      smallest of them. */
  lemma {:induction false} CallUsesSmallestStrike(T: real, strikes: seq<real>, S: real)
    requires |strikes| >= 1
    ensures Payoff(NewOption(Call, T, strikes), S) == Some(Max(S - Min(strikes), 0.0))
  {
    var K := Sort(strikes);
    SortHeadIsMin(strikes);
    HeadDecidesSingleStrike(T, K, Min(strikes), S);
    assert NewOption(Call, T, strikes) == EuropeanOption(Call, T, K);
  }

  /** Whatever order the strikes are given in, a put only uses the smallest
      of them. */
  lemma {:induction false} PutUsesSmallestStrike(T: real, strikes: seq<real>, S: real)
    requires |strikes| >= 1
    ensures Payoff(NewOption(Put, T, strikes), S) == Some(Max(Min(strikes) - S, 0.0))
  {
    var K := Sort(strikes);
    SortHeadIsMin(strikes);
    HeadDecidesSingleStrike(T, K, Min(strikes), S);
    assert NewOption(Put, T, strikes) == EuropeanOption(Put, T, K);
  }

  lemma HeadDecidesSingleStrike(T: real, K: seq<real>, m: real, S: real)
    requires |K| >= 1 && K[0] == m
    ensures Payoff(EuropeanOption(Call, T, K), S) == Some(Max(S - m, 0.0))
    ensures Payoff(EuropeanOption(Put, T, K), S) == Some(Max(m - S, 0.0))
  {
  }

  // ---------------------------------------------------------------------
  // The documented examples, through the sorting constructor

  /** Without strikes every variant fails; with one strike the bull and bear
      spreads fail and the strangle fails at S = 150 > K[0]. */
  lemma MissingStrikesFail()
    ensures Payoff(NewOption(Call, 1.0, []), 100.0) == None
    ensures Payoff(NewOption(Put, 1.0, []), 100.0) == None
    ensures Payoff(NewOption(BullSpread, 1.0, []), 100.0) == None
    ensures Payoff(NewOption(BearSpread, 1.0, []), 100.0) == None
    ensures Payoff(NewOption(StrangleSpread, 1.0, []), 100.0) == None
    ensures Payoff(NewOption(BullSpread, 1.0, [100.0]), 150.0) == None
    ensures Payoff(NewOption(BearSpread, 1.0, [100.0]), 150.0) == None
    ensures Payoff(NewOption(StrangleSpread, 1.0, [100.0]), 150.0) == None
    ensures Payoff(NewOption(StrangleSpread, 1.0, [100.0]), 50.0) == Some(50.0)
  {
  }

  /** Strikes (100, 300) at spot prices 50, 150 and 400. */
  lemma SpreadExamples()
    ensures Payoff(NewOption(BullSpread, 1.0, [100.0, 300.0]), 50.0) == Some(0.0)
    ensures Payoff(NewOption(BullSpread, 1.0, [100.0, 300.0]), 150.0) == Some(50.0)
    ensures Payoff(NewOption(BullSpread, 1.0, [100.0, 300.0]), 400.0) == Some(200.0)
    ensures Payoff(NewOption(BearSpread, 1.0, [100.0, 300.0]), 50.0) == Some(200.0)
    ensures Payoff(NewOption(BearSpread, 1.0, [100.0, 300.0]), 150.0) == Some(150.0)
    ensures Payoff(NewOption(BearSpread, 1.0, [100.0, 300.0]), 400.0) == Some(0.0)
    ensures Payoff(NewOption(StrangleSpread, 1.0, [100.0, 300.0]), 50.0) == Some(50.0)
    ensures Payoff(NewOption(StrangleSpread, 1.0, [100.0, 300.0]), 150.0) == Some(0.0)
    ensures Payoff(NewOption(StrangleSpread, 1.0, [100.0, 300.0]), 400.0) == Some(100.0)
  {
  }

  /** Strike 150: the put at 100 and 150, the call at 100 and 200. */
  lemma VanillaExamples()
    ensures Payoff(NewOption(Put, 1.0, [150.0]), 100.0) == Some(50.0)
    ensures Payoff(NewOption(Put, 1.0, [150.0]), 150.0) == Some(0.0)
    ensures Payoff(NewOption(Call, 1.0, [150.0]), 100.0) == Some(0.0)
    ensures Payoff(NewOption(Call, 1.0, [150.0]), 200.0) == Some(50.0)
  {
  }
}
