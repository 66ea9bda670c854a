/**
 * The `POST /bfhl` handler of index.js: check that the body has exactly
 * one key, dispatch on it, validate the value's shape, compute, and wrap
 * the result or the error in the response envelope.
 *
 * The configured e-mail address is a parameter, and the completion
 * provider behind the `AI` operation is an oracle `ask` from the user's
 * question to the reply text, or `None` when the call fails or the reply
 * has no content (either throws in the handler and becomes a 500).
 */
module Handler {
  import opened Json
  import opened Arith
  import opened Primes
  import opened Fibonacci
  import opened Seqs
  import opened Folds
  import opened Text

  const OneKeyError := "Exactly one input key is required"
  const FibonacciError := "Invalid fibonacci input"
  const PrimeError := "Prime input must be an array"
  const LcmError := "LCM input must be a non-empty array"
  const HcfError := "HCF input must be a non-empty array"
  const AIError := "AI input must be a string"
  const KeyError := "Invalid input key"
  const InternalError := "Internal Server Error"

  function Success(email: string, data: Json): Response
  {
    Response(200, true, email, Some(data), None)
  }

  function Failure(email: string, status: int, message: string): Response
  {
    Response(status, false, email, None, Some(message))
  }

  /**
   * The envelope invariant: `data` exactly on success, with status 200;
   * `error` exactly on failure, with status 400 or 500; a 500 always
   * carries the fixed message; the e-mail is the configured one.
   */
  predicate WellFormed(r: Response, email: string)
  {
    && r.officialEmail == email
    && (r.isSuccess ==> r.status == 200 && r.data.Some? && r.error.None?)
    && (!r.isSuccess ==> r.data.None? && r.error.Some? && (r.status == 400 || r.status == 500))
    && (r.status == 500 ==> r.error == Some(InternalError))
  }

  /** The filter predicate of the prime branch: `Number.isInteger(n) && isPrime(n)`. */
  predicate IsIntegerPrime(v: Json)
  {
    v.Int? && Prime(v.i)
  }

  predicate AllIntegers(items: seq<Json>)
  {
    forall k :: 0 <= k < |items| ==> items[k].Int?
  }

  function Integers(items: seq<Json>): (xs: seq<int>)
    requires AllIntegers(items)
    ensures |xs| == |items| && forall k :: 0 <= k < |xs| ==> items[k] == Int(xs[k])
  {
    seq(|items|, k requires 0 <= k < |items| => items[k].i)
  }

  /** The array the fibonacci branch returns for a valid `n`. */
  function FibonacciData(n: nat): Json
  {
    Arr(seq(n, k requires 0 <= k < n => Int(Fib(k))))
  }

  /** The single key of a one-key body (`Object.keys(body)[0]`). */
  function OnlyKey(body: map<string, Json>): (key: string)
    requires |body| == 1
    ensures body.Keys == {key}
  {
    var key :| key in body;
    assert body.Keys == {key} by {
      assert |body.Keys - {key}| == |body.Keys| - 1 == 0;
      assert body.Keys - {key} == {};
    }
    key
  }

  /**
   * The `switch` on the key, with the shape check and the computation of
   * each operation. `reduce` without a seed returns the only element of a
   * one-element array without calling `lcm` or `gcd`, whatever that element
   * is. `None` stands for a response this model does not determine: an lcm
   * or hcf array of two or more elements with an operand that is not an
   * integer, which goes through JavaScript's floating-point `%` (fractions)
   * or its coercion of non-numbers to numbers (strings, booleans, nested
   * arrays, null).
   */
  function Dispatch(email: string, key: string, value: Json, ask: string -> Option<string>): (out: Option<Response>)
    ensures out.Some? ==> WellFormed(out.value, email)
  {
    if key == "fibonacci" then
      if !value.Int? || value.i < 0 then Some(Failure(email, 400, FibonacciError))
      else Some(Success(email, FibonacciData(value.i)))
    else if key == "prime" then
      if !value.Arr? then Some(Failure(email, 400, PrimeError))
      else Some(Success(email, Arr(Filter(IsIntegerPrime, value.items))))
    else if key == "lcm" then
      if !value.Arr? || |value.items| == 0 then Some(Failure(email, 400, LcmError))
      else if |value.items| == 1 then Some(Success(email, value.items[0]))
      else if !AllIntegers(value.items) then None
      else
        match LcmAll(Integers(value.items))
        case Done(Fin(v)) => Some(Success(email, Int(v)))
        case Done(NaN) => Some(Success(email, Null))
        case Overflow => Some(Failure(email, 500, InternalError))
    else if key == "hcf" then
      if !value.Arr? || |value.items| == 0 then Some(Failure(email, 400, HcfError))
      else if |value.items| == 1 then Some(Success(email, value.items[0]))
      else if !AllIntegers(value.items) then None
      else Some(Success(email, Int(Hcf(Integers(value.items)))))
    else if key == "AI" then
      if !value.Str? || Trim(value.s) == [] then Some(Failure(email, 400, AIError))
      else
        match ask(value.s)
        case None => Some(Failure(email, 500, InternalError))
        case Some(content) => Some(Success(email, Str(Sanitize(content))))
    else Some(Failure(email, 400, KeyError))
  }

  /** The whole handler on a request body. */
  function Handle(email: string, body: map<string, Json>, ask: string -> Option<string>): (out: Option<Response>)
    ensures out.Some? ==> WellFormed(out.value, email)
    ensures |body| != 1 ==> out == Some(Failure(email, 400, OneKeyError))
  {
    if |body| != 1 then Some(Failure(email, 400, OneKeyError))
    else
      var key := OnlyKey(body);
      Dispatch(email, key, body[key], ask)
  }

  /** A body with one key is handled by the branch for that key. */
  lemma SingleKey(email: string, key: string, value: Json, ask: string -> Option<string>)
    ensures Handle(email, map[key := value], ask) == Dispatch(email, key, value, ask)
  {
    var body := map[key := value];
    assert |body| == 1 by {
      assert body.Keys == {key};
    }
  }

  /** A single key outside the five operations is rejected with 400. */
  lemma UnknownKeyRejected(email: string, key: string, value: Json, ask: string -> Option<string>)
    requires key !in {"fibonacci", "prime", "lcm", "hcf", "AI"}
    ensures Handle(email, map[key := value], ask) == Some(Failure(email, 400, KeyError))
  {
    SingleKey(email, key, value, ask);
  }

  /** The first terms of the Fibonacci sequence as JSON integers: 0, 1, then each the sum of the two before. */
  ghost predicate FibonacciShaped(xs: seq<Json>)
  {
    && (forall k :: 0 <= k < |xs| ==> xs[k].Int? && xs[k].i >= 0)
    && (|xs| > 0 ==> xs[0] == Int(0))
    && (|xs| > 1 ==> xs[1] == Int(1))
    && (forall k :: 2 <= k < |xs| ==> xs[k].i == xs[k - 1].i + xs[k - 2].i)
  }

  /**
   * The fibonacci branch: a non-negative integer `n` gives 200 and the first
   * `n` Fibonacci numbers; anything else gives 400 and never anything else.
   */
  lemma FibonacciBranch(email: string, value: Json, ask: string -> Option<string>)
    ensures var out := Handle(email, map["fibonacci" := value], ask);
      && out.Some?
      && (value.Int? && value.i >= 0 ==>
            && out.value.status == 200
            && out.value.data.Some? && out.value.data.value.Arr?
            && |out.value.data.value.items| == value.i
            && FibonacciShaped(out.value.data.value.items))
      && (!value.Int? || value.i < 0 ==> out.value == Failure(email, 400, FibonacciError))
  {
    SingleKey(email, "fibonacci", value, ask);
  }

  /**
   * The prime branch: an array gives 200 and the subsequence of its
   * elements that are prime integers, each kept as often as it occurs;
   * anything else gives 400.
   */
  lemma PrimeBranch(email: string, value: Json, ask: string -> Option<string>)
    ensures var out := Handle(email, map["prime" := value], ask);
      && out.Some?
      && (value.Arr? ==>
            && out.value.status == 200
            && out.value.data.Some? && out.value.data.value.Arr?
            && var kept := out.value.data.value.items;
            && IsSubsequence(kept, value.items)
            && (forall k :: 0 <= k < |kept| ==> kept[k].Int? && Prime(kept[k].i))
            && (forall n :: Prime(n) ==> multiset(kept)[Int(n)] == multiset(value.items)[Int(n)]))
      && (!value.Arr? ==> out.value == Failure(email, 400, PrimeError))
  {
    SingleKey(email, "prime", value, ask);
    if value.Arr? {
      var kept := Filter(IsIntegerPrime, value.items);
      forall n | Prime(n)
        ensures multiset(kept)[Int(n)] == multiset(value.items)[Int(n)]
      {
        assert IsIntegerPrime(Int(n));
      }
    }
  }

  /** The lcm and hcf branches reject a value that is not an array, or an empty array, with 400. */
  lemma LcmHcfRejectEmpty(email: string, value: Json, ask: string -> Option<string>)
    requires !value.Arr? || value.items == []
    ensures Handle(email, map["lcm" := value], ask) == Some(Failure(email, 400, LcmError))
    ensures Handle(email, map["hcf" := value], ask) == Some(Failure(email, 400, HcfError))
  {
    SingleKey(email, "lcm", value, ask);
    SingleKey(email, "hcf", value, ask);
  }

  /** `reduce` without a seed returns the only element of a one-element array unchanged. */
  lemma LcmHcfSingleton(email: string, x: Json, ask: string -> Option<string>)
    ensures Handle(email, map["lcm" := Arr([x])], ask) == Some(Success(email, x))
    ensures Handle(email, map["hcf" := Arr([x])], ask) == Some(Success(email, x))
  {
    SingleKey(email, "lcm", Arr([x]), ask);
    SingleKey(email, "hcf", Arr([x]), ask);
  }

  /**
   * The hcf branch on a non-empty array of integers answers 200 with their
   * greatest common divisor: a common divisor that every common divisor divides.
   */
  lemma HcfBranch(email: string, items: seq<Json>, ask: string -> Option<string>, d: int)
    requires items != [] && AllIntegers(items)
    ensures var out := Handle(email, map["hcf" := Arr(items)], ask);
      && out.Some? && out.value.status == 200
      && out.value.data.Some? && out.value.data.value.Int?
      && var g := out.value.data.value.i;
      && (forall k :: 0 <= k < |items| ==> Divides(g, items[k].i))
      && ((forall k :: 0 <= k < |items| ==> Divides(d, items[k].i)) ==> Divides(d, g))
  {
    SingleKey(email, "hcf", Arr(items), ask);
    var xs := Integers(items);
    DividesSelf(items[0].i);
    if forall k :: 0 <= k < |items| ==> Divides(d, items[k].i) {
      HcfGreatest(xs, d);
    }
  }

  /**
   * The lcm branch on a non-empty array of non-zero integers answers 200
   * with their least common multiple: a non-zero common multiple that
   * divides every common multiple.
   */
  lemma LcmBranch(email: string, items: seq<Json>, ask: string -> Option<string>, m: int)
    requires items != [] && AllIntegers(items)
    requires forall k :: 0 <= k < |items| ==> items[k].i != 0
    ensures var out := Handle(email, map["lcm" := Arr(items)], ask);
      && out.Some? && out.value.status == 200
      && out.value.data.Some? && out.value.data.value.Int?
      && var l := out.value.data.value.i;
      && l != 0
      && (forall k :: 0 <= k < |items| ==> Divides(items[k].i, l))
      && ((forall k :: 0 <= k < |items| ==> Divides(items[k].i, m)) ==> Divides(l, m))
  {
    SingleKey(email, "lcm", Arr(items), ask);
    var xs := Integers(items);
    DividesSelf(items[0].i);
    if forall k :: 0 <= k < |items| ==> Divides(items[k].i, m) {
      LcmAllLeast(xs, m);
    }
  }

  /**
   * Zeros in the lcm branch: one zero answers 0; two or more answer `null`
   * (the serialised NaN of `lcm(0, 0)`), unless a non-zero element follows
   * the second zero, which throws and answers 500.
   */
  lemma LcmBranchZeros(email: string, items: seq<Json>, ask: string -> Option<string>)
    requires items != [] && AllIntegers(items)
    ensures var out := Handle(email, map["lcm" := Arr(items)], ask);
      var xs := Integers(items);
      && (ZeroCount(xs) == 1 ==> out == Some(Success(email, Int(0))))
      && (ZeroCount(xs) >= 2 && !NonzeroAfterTwoZeros(xs) ==> out == Some(Success(email, Null)))
      && (ZeroCount(xs) >= 2 && NonzeroAfterTwoZeros(xs) ==> out == Some(Failure(email, 500, InternalError)))
  {
    SingleKey(email, "lcm", Arr(items), ask);
    LcmAllZeros(Integers(items));
  }

  /**
   * The AI branch: a string that is not blank is sent to the provider as
   * it is; a failed call answers 500 and a reply answers 200 with the
   * sanitised reply, a word of letters, digits and underscores only.
   * Anything else answers 400.
   */
  lemma AIBranch(email: string, value: Json, ask: string -> Option<string>)
    ensures var out := Handle(email, map["AI" := value], ask);
      && out.Some?
      && (!value.Str? || (forall k :: 0 <= k < |value.s| ==> IsSpace(value.s[k])) ==>
            out.value == Failure(email, 400, AIError))
      && (value.Str? && (exists k :: 0 <= k < |value.s| && !IsSpace(value.s[k])) ==>
            && (ask(value.s).None? ==> out.value == Failure(email, 500, InternalError))
            && (ask(value.s).Some? ==>
                  && out.value == Success(email, Str(Sanitize(ask(value.s).value)))
                  && out.value.status == 200
                  && out.value.data.Some? && out.value.data.value.Str?
                  && forall k :: 0 <= k < |out.value.data.value.s| ==>
                       IsWordChar(out.value.data.value.s[k]) && !IsSpace(out.value.data.value.s[k])))
  {
    SingleKey(email, "AI", value, ask);
    if value.Str? {
      TrimSpec(value.s);
    }
  }

  /**
   * The model leaves a response undetermined only for an lcm or hcf array
   * of two or more elements with a non-integer operand.
   */
  lemma Determined(email: string, body: map<string, Json>, ask: string -> Option<string>)
    ensures Handle(email, body, ask).None? <==>
      && |body| == 1
      && var key := OnlyKey(body);
      && (key == "lcm" || key == "hcf")
      && body[key].Arr? && |body[key].items| >= 2
      && !AllIntegers(body[key].items)
  {
  }

  /**
   * Among the responses the model determines, a 500 comes only from a
   * failed provider call in the AI branch or from the lcm reduction throwing.
   */
  lemma ServerErrorCauses(email: string, body: map<string, Json>, ask: string -> Option<string>)
    requires Handle(email, body, ask).Some? && Handle(email, body, ask).value.status == 500
    ensures |body| == 1
    ensures var key := OnlyKey(body);
      || (key == "AI" && body[key].Str? && ask(body[key].s).None?)
      || (key == "lcm" && body[key].Arr? && AllIntegers(body[key].items) && body[key].items != []
          && LcmAll(Integers(body[key].items)) == Overflow)
  {
  }

  /** `{"fibonacci": 5}` answers `[0, 1, 1, 2, 3]`. */
  lemma FibonacciExample(email: string, ask: string -> Option<string>)
    ensures Handle(email, map["fibonacci" := Int(5)], ask)
         == Some(Success(email, Arr([Int(0), Int(1), Int(1), Int(2), Int(3)])))
  {
    SingleKey(email, "fibonacci", Int(5), ask);
    var items := FibonacciData(5).items;
    assert Fib(0) == 0 && Fib(1) == 1 && Fib(2) == 1 && Fib(3) == 2 && Fib(4) == 3;
    assert items == [Int(0), Int(1), Int(1), Int(2), Int(3)] by {
      assert |items| == 5;
      assert items[0] == Int(0) && items[1] == Int(1) && items[2] == Int(1);
      assert items[3] == Int(2) && items[4] == Int(3);
    }
  }

  /** `{"lcm": [4, 6]}` answers 12. */
  lemma LcmExample(email: string, ask: string -> Option<string>)
    ensures Handle(email, map["lcm" := Arr([Int(4), Int(6)])], ask) == Some(Success(email, Int(12)))
  {
    SingleKey(email, "lcm", Arr([Int(4), Int(6)]), ask);
    assert Integers([Int(4), Int(6)]) == [4, 6];
    assert [4, 6][..1] == [4];
    assert Gcd(4, 6) == 2 by {
      assert JsRem(4, 6) == 4 && JsRem(6, 4) == 2 && JsRem(4, 2) == 0;
    }
    assert LcmAll([4, 6]) == Done(Fin(12));
  }

  /** `{"hcf": [12, 18]}` answers 6. */
  lemma HcfExample(email: string, ask: string -> Option<string>)
    ensures Handle(email, map["hcf" := Arr([Int(12), Int(18)])], ask) == Some(Success(email, Int(6)))
  {
    SingleKey(email, "hcf", Arr([Int(12), Int(18)]), ask);
    assert Integers([Int(12), Int(18)]) == [12, 18];
    assert [12, 18][..1] == [12];
    assert Gcd(12, 18) == 6 by {
      assert JsRem(12, 18) == 12 && JsRem(18, 12) == 6 && JsRem(12, 6) == 0;
    }
    assert Hcf([12, 18]) == 6;
  }
}
