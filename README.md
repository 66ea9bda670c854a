# bfhl-api core in Dafny

A model of the `POST /bfhl` endpoint in `index.js`. It takes a JSON body that should hold
exactly one of the keys `fibonacci`, `prime`, `lcm`, `hcf` or `AI`. It checks the shape of the
value for that key and computes the answer. It then wraps the result or the error in the envelope
`{ is_success, official_email, data | error }` with status 200, 400 or 500.

The model has these modules:

- `Arith` (arith.dfy): the math kernel's `gcd` and `lcm` over all integers.
  - `JsRem` is JavaScript's `%`, which takes the sign of the dividend.
  - `Gcd` is Euclid's recursion as written.
  - `Lcm` is `a * b / gcd(a, b)`. For two zeros it is NaN, since `0 / 0` is not guarded.
  - Divisibility is stated as `Divides(d, n)`: there is a `k` with `n == d * k`.
  - Bezout's identity is proved by following `Gcd`'s recursion. It gives that the result of `Lcm` is the least common multiple.
- `Primes` (primes.dfy): `isPrime` as the method `IsPrime`, a trial-division loop with an early return.
  - The method is proved against `Prime`, the textbook definition.
  - The loop's square-root bound `i <= Math.sqrt(n)` is written `i * i <= n`.
  - `TrialDivisionSound` shows this bound loses nothing.
- `Fibonacci` (fibonacci.dfy): the loop of the fibonacci branch as the method `FibonacciSequence`.
  - The loop pushes `a` and then rotates `(a, b)`.
  - The method is proved to produce the first `n` values of `Fib`.
- `Seqs` (seqs.dfy): `Array.prototype.filter` as `Filter`, characterised by an order-preserving subsequence predicate. The same filter models `replace(/[^\w]/g, "")`.
- `Folds` (folds.dfy): the seedless `reduce` of the lcm and hcf branches.
  - `Hcf` is the greatest common divisor of the array.
  - Over non-zero integers, `LcmAll` is the least common multiple.
  - A zero, a second zero (NaN) and a non-zero element after two zeros each change what `LcmAll` returns. With a non-zero element after two zeros, `gcd` recurses on NaN forever and the stack overflows.
  - The hcf fold, and the lcm fold on zero-free arrays, are independent of the array's order up to sign. The sign itself can depend on the order: `[4, -4]` gives -4 and `[-4, 4]` gives 4.
  - With zeros, the order decides the lcm fold's outcome: `[0, 0, 5]` overflows, while `[5, 0, 0]` gives NaN.
- `Text` (text.dfy): the answer sanitiser, as trim, then the first whitespace-separated token, then word characters only.
- `Json` (json.dfy) and `Handler` (handler.dfy): the request body, the response envelope, and the handler.
  - The request body is a map from keys to JSON values.
  - `Handle` is the whole handler as a function.
  - The e-mail address is a parameter.
  - The completion provider is an oracle `ask: string -> Option<string>`. `None` means the call failed or returned no content, which the handler turns into a 500.

`Handle` and `Dispatch` are functions, so they use the specification functions `Fib` and `Prime`
where the source calls its loops. The methods `FibonacciSequence` and `IsPrime` are proved equal
to these functions.

Three behaviours of the code differ from what its purpose suggests; the model follows the code:

- The AI branch sends the user's string to the provider untrimmed. Only the emptiness check uses the trimmed string.
- `lcm` does not guard against two zeros:
  - `lcm(0, 0)` is NaN, which the response serialises as `null` with status 200.
  - A non-zero operand after that makes `gcd` recurse without end, and the handler answers 500.
- The lcm and hcf results depend on the array's order:
  - The hcf, and the lcm of a zero-free array, are order-independent only up to sign (`Folds.HcfSignDependsOnOrder`). On non-negative input the hcf is exactly order-independent.
  - An lcm array with two or more zeros can answer 500 in one order and `null` in another (`Folds.LcmOutcomeDependsOnOrder`).

## Model

| member | source | states |
|---|---|---|
| Arith.JsRem | index.js:27 | JavaScript's `%`: its magnitude is below the divisor's, its sign is the dividend's, and `a == q * b + r` for the truncated quotient |
| Arith.Gcd | index.js:27 | `gcd(a, 0) == a`. The result divides both operands. It is zero only when both are zero. It is non-negative on non-negative input. Recursion ends because the second argument's magnitude decreases |
| Arith.GcdGreatest | index.js:27 | Every common divisor of `a` and `b` divides `gcd(a, b)` |
| Arith.Bezout | index.js:27 | `gcd(a, b) == a * x + b * y` for some integers `x`, `y` |
| Arith.Lcm | index.js:28 | `lcm(a, b)` is NaN exactly when both operands are zero. Otherwise it is a common multiple of both, and zero exactly when one operand is zero |
| Arith.LcmQuotient | index.js:28 | The division `a * b / gcd(a, b)` is exact when the operands are not both zero |
| Arith.LcmLeast | index.js:28 | `lcm(a, b)` divides every common multiple of `a` and `b` |
| Primes.TrialDivisionSound | index.js:19-25 | Stopping trial division at `i * i <= n` gives the textbook definition of a prime: at least 2 and no divisor in `[2, n - 1]` |
| Primes.IsPrime | index.js:19-25 | The loop returns true exactly when `n` is prime. Both forms are stated: no divisor up to the square root, and no divisor in `[2, n - 1]`. Every `n < 2` gives false |
| Fibonacci.FibonacciSequence | index.js:72-78 | The loop returns `n` numbers: `Fib(0) .. Fib(n - 1)`. They start 0, 1, and each later one is the sum of the two before |
| Seqs.Filter | index.js:90 | The filter's result is an order-preserving subsequence of the input. Every kept element passes the test, and every element that passes is kept as often as it occurs |
| Seqs.FilterKeepsAll | index.js:90 | Filtering an array whose elements all pass leaves it unchanged |
| Folds.Hcf | index.js:116 | The reduced value divides every element. It is zero exactly when every element is zero |
| Folds.HcfGreatest | index.js:116 | Every common divisor of the array divides the reduced value |
| Folds.HcfOrderIrrelevant | index.js:116 | Permuting the array leaves the magnitude of the hcf unchanged |
| Folds.HcfSignDependsOnOrder | index.js:116 | The hcf of `[4, -4]` is -4 and the hcf of `[-4, 4]` is 4 |
| Folds.LcmOutcomeDependsOnOrder | index.js:102 | The lcm of `[0, 0, 5]` overflows the stack, while the lcm of `[5, 0, 0]` is NaN |
| Folds.HcfNonNegative | index.js:116 | On non-negative input the hcf is non-negative |
| Folds.LcmAll | index.js:102 | With no zero in the array, the reduction gives a non-zero number that every element divides |
| Folds.LcmAllLeast | index.js:102 | With no zero in the array, the reduced value divides every common multiple |
| Folds.LcmOrderIrrelevant | index.js:102 | For a zero-free array, permuting it leaves the magnitude of the lcm unchanged |
| Folds.LcmAllZeros | index.js:102 | Covers the reduction for every number of zeros. No zero gives a non-zero integer. One zero gives 0. Two or more give NaN, or the stack overflow if a non-zero element follows the second zero |
| Text.TrimStart | index.js:147 | Only leading whitespace is removed, and the result does not start with whitespace |
| Text.TrimEnd | index.js:147 | Only trailing whitespace is removed, and the result does not end with whitespace |
| Text.TrimSpec | index.js:147 | `trim` gives the infix of its input between leading and trailing whitespace. It is empty exactly when the input is all whitespace |
| Text.FirstToken | index.js:148 | `split(/\s+/)[0]` is the longest prefix without whitespace |
| Text.Sanitize | index.js:146-149 | The answer contains only letters, digits and `_`, so no whitespace. It is a subsequence of the first token of the trimmed reply, and it keeps every word character of that token as often as it occurs there |
| Text.SanitizeIdempotent | index.js:146-149 | Sanitising the answer again returns it unchanged |
| Text.SanitizeOneWord | index.js:146-149 | A reply made of one word, with whitespace around it and anything after a space, sanitises to exactly that word |
| Handler.OnlyKey | index.js:46-57 | A one-key body's key set is exactly the chosen key |
| Handler.Dispatch | index.js:60-159 | Every determined response satisfies the envelope invariant. A one-element lcm or hcf array is answered with its element, whatever it is |
| Handler.Handle | index.js:43-173 | Every determined response satisfies the envelope invariant. Success means status 200 with `data` and no `error`. Failure means status 400 or 500 with `error` and no `data`. Every 500 carries "Internal Server Error". A body without exactly one key gets 400 "Exactly one input key is required" |
| Handler.SingleKey | index.js:46-60 | A one-key body is answered by the branch for its key |
| Handler.UnknownKeyRejected | index.js:153-158 | A single key outside the five operations gets 400 "Invalid input key" |
| Handler.FibonacciBranch | index.js:63-79 | A non-negative integer `n` gets 200 with `n` numbers: 0, 1, then each the sum of the two before. Anything else gets 400 "Invalid fibonacci input" |
| Handler.PrimeBranch | index.js:82-91 | An array gets 200 with the order-preserving subsequence of its prime integers, each kept as often as it occurs, and no non-integers. A non-array gets 400 "Prime input must be an array" |
| Handler.LcmHcfRejectEmpty | index.js:94-115 | A value that is not an array, or is an empty array, gets 400 with the branch's own message |
| Handler.LcmHcfSingleton | index.js:94-117 | A one-element array `[x]` gets 200 with `x` unchanged, in both branches, for any JSON value `x` |
| Handler.HcfBranch | index.js:108-117 | An array of integers gets 200 with a common divisor that every common divisor divides |
| Handler.LcmBranch | index.js:94-103 | An array of non-zero integers gets 200 with a non-zero common multiple that divides every common multiple |
| Handler.LcmBranchZeros | index.js:94-103 | One zero gets 0. Two or more zeros get `null` (NaN). A non-zero element after the second zero gets 500 "Internal Server Error" |
| Handler.AIBranch | index.js:122-151 | A non-string or blank value gets 400 "AI input must be a string". A failed provider call gets 500. A reply gets 200 with exactly the sanitised reply, a word of letters, digits and `_` only |
| Handler.Determined | index.js:93-117 | The only undetermined response is for an lcm or hcf array of two or more elements with a non-integer element |
| Handler.ServerErrorCauses | index.js:167-172 | Among the responses the model determines, a 500 comes only from a failed AI provider call or from the lcm reduction overflowing |
| Handler.FibonacciExample | index.js:63-79 | `{"fibonacci": 5}` gets `[0, 1, 1, 2, 3]` |
| Handler.LcmExample | index.js:94-103 | `{"lcm": [4, 6]}` gets 12 |
| Handler.HcfExample | index.js:108-117 | `{"hcf": [12, 18]}` gets 6 |

## Left out

- Express, cors and dotenv setup, the `GET /health` route and `app.listen` (index.js:1-16, 33-38, 177-180) are framework plumbing. The configured e-mail address is a parameter of `Handle`.
- The OpenAI request (model name, system prompt, token cap) and async/await (index.js:131-144) are not modelled. The call is the oracle `ask`. Its failure, or a reply without content, is the 500 path.
- Number semantics:
  - Numbers are unbounded integers, so precision loss above 2^53 in fibonacci terms and `lcm` products is not modelled.
  - Overflow past `Number.MAX_VALUE` to `Infinity` is not modelled either. Fibonacci terms from `Fib(1477)` on would serialise as `null`. An lcm accumulator that becomes `Infinity` would answer `null`, or 500 when a non-zero element follows, since `gcd(Infinity, x)` recurses on NaN forever. The model answers these with the exact integers instead.
  - `Math.sqrt` in the prime loop is modelled as `i * i <= n`.
  - `-0` is not distinguished from 0, which serialises the same.
- Handler.Dispatch: lcm and hcf arrays of two or more elements that hold non-integers go through JavaScript's floating-point `%` (fractions, so `{"hcf": [2.5, 5]}` answers 2.5) or its coercion of non-numbers to numbers (strings, booleans, nested arrays, null). Those responses are not modelled: `Handle` returns `None` for them. Some of them answer 500, for example `{"hcf": [5, "a"]}`, whose `gcd` recursion on NaN never ends.
- Request bodies that are not JSON objects, such as a top-level array or a missing body, are not modelled. The body is a map from keys to values.
- `\s`, `\w` and `trim` are restricted to ASCII. Unicode whitespace such as the no-break space is not modelled.
- Handler.Handle: the fibonacci and prime branches use the specification functions `Fib` and `Prime`. The loops themselves are the methods `FibonacciSequence` and `IsPrime`, proved equal to those functions.
