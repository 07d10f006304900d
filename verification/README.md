# Unary tuple arithmetic

A Dafny model of the type-level arithmetic in `TypeScript/index.ts`. The file
writes a natural number N as a tuple of N `unknown` placeholders. `NewArray<N>`
builds that tuple and `['length']` reads the number back. Four operations are
defined on top:

- `Add<A, B>` reads the length of the two tuples spread into one.
- `Sub<A, B>` matches the tuple of A against `[...NewArray<B>, ...infer R]` and
  reads R's length. It gives `never` when the match fails.
- `Mul<A, B, Count>` recurses on B through `Sub<B, 1>` and appends A placeholders
  to the accumulator Count at each step.
- `Div<A, B, Count>` recurses on A through `Sub<A, B>` and appends one placeholder
  to Count at each step. It stops when A is exactly 0.

Modules:

- `Unary` (`unary.dfy`): tuples as `seq<()>`, the encoder `NewArray`, and the
  prefix pattern `Split`.
- `Arith` (`arith.dfy`): the four operations. Each returns a `Resolution`: a
  `Number`, `Never` (TypeScript's `never`), or `Diverges` (the alias keeps
  expanding and never reaches a base case).

An argument that can receive `never` is a naked type parameter in a
conditional type. Such a conditional distributes over its argument, so `never`
in gives `never` out. `MulFrom` and `DivFrom` take that argument as a
`Resolution` for this reason.

How `Div` behaves off the exact multiples:

- For B > 0 and a dividend that B does not divide, some step calls `Sub` with
  B larger than what is left. That `Sub` is `never`, and `never` distributes through
  `Div`, so the result is `never`, not non-termination.
- `Div<0, B>` is 0 for every B, B = 0 included, because the base case is tested
  first.
- `Div<A, 0>` with A > 0 never terminates, because `Sub<A, 0>` gives A back.
  `DivFrom` spots the step that makes no progress and returns `Diverges`.
  `DivUnfold` is the literal step-by-step expansion with a fuel bound, and two
  lemmas show that `Diverges` means exactly that every fuel bound runs out.

## Model

| member | source | states |
|---|---|---|
| Unary.NewArrayFrom | TypeScript/index.ts:1 | starting from a tuple no longer than N, the result has length exactly N and extends the starting tuple |
| Unary.NewArray | TypeScript/index.ts:1 | the encoding of N has length N (decode after encode is the identity) |
| Unary.EncodeLength | TypeScript/index.ts:1 | encoding the length of any tuple gives that tuple back (encode after decode is the identity) |
| Unary.SameLengthSame | TypeScript/index.ts:1 | placeholder tuples are determined by their length |
| Unary.Split | TypeScript/index.ts:7 | the pattern `[...P, ...infer R]` matches exactly when P is a prefix of T, and then P followed by R is T |
| Unary.PrefixByLength | TypeScript/index.ts:7 | between placeholder tuples, P is a prefix of T exactly when P is no longer than T |
| Unary.SplitInfersRest | TypeScript/index.ts:7 | whenever T is P followed by some R, the pattern infers exactly that R |
| Arith.Add | TypeScript/index.ts:3-4 | `Add<A, B>` is A + B |
| Arith.AddEncodesSum | TypeScript/index.ts:3-4 | the spread of the two encodings is the encoding of A + B, and is the same in either order |
| Arith.Sub | TypeScript/index.ts:6-7 | `Sub<A, B>` is A - B when B <= A and `never` when B > A |
| Arith.AddSubInverse | TypeScript/index.ts:4-7 | `Sub` undoes `Add`: stripping B from A + B gives A, and adding B back to A - B gives A |
| Arith.MulFrom | TypeScript/index.ts:9-12 | `Mul<A, B, Count>` is the length of Count plus A * B; a `never` or unresolved B comes out unchanged |
| Arith.Mul | TypeScript/index.ts:10-12 | `Mul<A, B>` is A * B, and `Mul<A, 0>` is 0 |
| Arith.DivFrom | TypeScript/index.ts:14-17 | `Div<A, B, Count>` is the length of Count when A is 0. It is the length of Count plus A / B when B > 0 divides A. It is `never` when B > 0 does not divide A. It diverges when A > 0 and B = 0. A `never` or unresolved A comes out unchanged |
| Arith.Div | TypeScript/index.ts:15-17 | `Div<A, B>` yields a count exactly when A = 0 or B > 0 divides A. It diverges exactly when A > 0 and B = 0. A count times B is A |
| Arith.DivThirtyByFive | TypeScript/index.ts:20 | `Div<30, 5>` is 6 |
| Arith.DivOfMul | TypeScript/index.ts:10-17 | dividing `Mul<A, B>` by B > 0 gives A back |
| Arith.MulOfDiv | TypeScript/index.ts:10-17 | whenever `Div<A, B>` yields a count, multiplying it by B gives A back |
| Arith.DivUnfoldAgrees | TypeScript/index.ts:15-17 | when `DivFrom` resolves, the literal expansion reaches the same answer once it may take more than A steps |
| Arith.DivUnfoldRunsOut | TypeScript/index.ts:15-17 | when `DivFrom` reports divergence, the literal expansion runs out of every fuel bound without reaching a base case |

## Left out

- `TypeScript/test.ts` (`OptionalKeys`): its behaviour is the compiler's rule for assigning an optional property to its required rewrite, with no arithmetic of the repository's own.
- The type checker's recursion and instantiation depth limits. Numbers are unbounded `nat`, so a large but finite computation resolves in the model.
- Non-literal, negative or fractional `number` arguments, and distribution over unions other than `never`. These are type-system mechanics outside the unary encoding.
- Unary.NewArrayFrom: a starting tuple longer than N makes the alias recurse forever. The model requires the starting tuple to be no longer than N. Every use in the file starts from the empty tuple.
- The explanatory comments and the sample alias `a`, except for the value `Div<30, 5>` = 6.
