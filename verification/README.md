# MathFin.Net pricing kernel in Dafny

This project models the finite-difference pricing kernel of MathFin.Net, a C#
library that prices European options under the Black-Scholes model. The kernel
has five parts:

- **Options.** An option has a kind (call, put, bull spread, bear spread or
  strangle spread), a maturity `T` and a list of strike prices. The
  constructor stores the strikes sorted in ascending order. Each kind has a
  payoff. A payoff reads `K[0]` and, for spreads, `K[1]`, and throws an
  index-out-of-range error when a strike it needs is missing.
- **Discretization.** A grid is given by `minS`, `maxS`, `iMax` time steps
  and `jMax` price steps. The accessors are the price step `h`, the node price
  `S(j)`, the time step `k` and the node time `t(i)`.
- **Solvers.** Three finite-difference schemes fill the option-value matrix
  `V`. Rows are time nodes and columns are price nodes. Each scheme starts
  from the terminal condition at row `iMax` and steps back to row 0. The
  lower and upper boundary conditions go in columns 0 and `jMax`.
  - The explicit method gives each interior value as a three-term combination
    of the later row.
  - The implicit method solves a tridiagonal system `A x = y - z` for each
    row.
  - Crank-Nicolson solves `B x = A y + z`.
- **Interpolation.** `PriceAt` blends the four grid nodes around a point
  `(t, S)`, using weights taken from floors of `t / k` and `S / h`.
- **Linear algebra.** Tridiagonal matrices, matrix-vector products and the
  boundary-correction vectors. The LU solve of the numerical library is a
  parameter of the model.

All arithmetic is over `real`. Payoffs and interpolation return `Option`, and
solvers return `Result`: the error value stands for the exception the C# code
throws. Surfaces are immutable `seq<seq<real>>`. A solver takes `V` and
returns the updated surface.

Files:

| file | contents |
|---|---|
| `wrappers.dfy` | `Option`, `Result`, the solver errors |
| `sorting.dfy` | insertion sort of the strikes, minimum |
| `market.dfy` | the Black-Scholes parameter record |
| `options.dfy` | option kinds, the constructor, payoffs and their algebra |
| `discretization.dfy` | grid, terminal and boundary conditions, grid accessors |
| `real_arith.dfy` | small facts about real products |
| `linear_algebra.dfy` | vectors, tridiagonal matrices, the solver parameter, generic step lemmas |
| `surface.dfy` | the value surface and the row writes shared by the solvers |
| `explicit_method.dfy` | explicit scheme |
| `implicit_method.dfy` | implicit scheme |
| `crank_nicolson.dfy` | Crank-Nicolson scheme |
| `interpolation.dfy` | `PriceAt` |

## Model

| member | source | states |
|---|---|---|
| Sorting.Sort | src/MathFinNet/Options/EuropeanCall.cs:20-25 | The stored strike list is in ascending order and is a permutation of the given strikes (the effect of `Array.Sort`). |
| Sorting.Insert | src/MathFinNet/Options/EuropeanCall.cs:20-25 | Inserting into a sorted list keeps it sorted and adds exactly that element. |
| Sorting.MinIsLeast | src/MathFin.Net/Options/EuropeanPut.cs:16-21 | The minimum is one of the strikes and is no larger than any of them. |
| Sorting.SortHeadIsMin | src/MathFin.Net/Options/EuropeanPut.cs:16-30 | After sorting, the first strike (the one payoffs read) is the smallest strike given. |
| Options.NewOption | src/MathFinNet/Options/EuropeanCall.cs:20-25 | The constructor keeps the kind and maturity, and stores the strikes as a sorted permutation of the arguments. |
| Options.CallPayoff | src/MathFinNet/Options/EuropeanCall.cs:27-34 | Defined exactly when there is at least one strike; then it is max(S - K0, 0). |
| Options.PutPayoff | src/MathFin.Net/Options/EuropeanPut.cs:23-30 | Defined exactly when there is at least one strike; then it is max(K0 - S, 0). |
| Options.BullSpreadPayoff | src/MathFin.Net/Options/EuropeanBullSpread.cs:23-34 | Defined exactly when there are at least two strikes; with K0 <= K1 the payoff lies in [0, K1 - K0]. |
| Options.BearSpreadPayoff | src/MathFin.Net/Options/EuropeanBearSpread.cs:23-34 | Defined exactly when there are at least two strikes; with K0 <= K1 the payoff lies in [0, K1 - K0]. The older copy in src/MathFinNet/Options/EuropeanBearSpread.cs is the same. |
| Options.StranglePayoff | src/MathFin.Net/Options/EuropeanStrangleSpread.cs:23-34 | Defined exactly when there are two strikes, or one strike and S < K0 (the branch that never reads K1); the payoff is never negative. |
| Options.Payoff | src/MathFin.Net/Options/IOption.cs:20 | The payoff every option type provides, chosen by the option's kind; each variant's contract is stated on its own payoff function. |
| Options.PutCallParity | src/MathFin.Net/Options/EuropeanPut.cs:23-30 | Call minus put at the same strike equals S - K0. |
| Options.BullPlusBear | src/MathFin.Net/Options/EuropeanBearSpread.cs:23-34 | A bull and a bear spread on the same strikes add up to K1 - K0 at every spot price. |
| Options.BullIsCallSpread | src/MathFin.Net/Options/EuropeanBullSpread.cs:23-34 | The bull spread is a long call at K0 and a short call at K1. |
| Options.BearIsPutSpread | src/MathFin.Net/Options/EuropeanBearSpread.cs:23-34 | The bear spread is a long put at K1 and a short put at K0. |
| Options.StrangleIsPutPlusCall | src/MathFin.Net/Options/EuropeanStrangleSpread.cs:23-34 | The strangle is a put at K0 plus a call at K1. |
| Options.CallMonotone | src/MathFinNet/Options/EuropeanCall.cs:27-34 | The call payoff never falls as the spot price rises. |
| Options.PutMonotone | src/MathFin.Net/Options/EuropeanPut.cs:23-30 | The put payoff never rises as the spot price rises. |
| Options.BullMonotone | src/MathFin.Net/Options/EuropeanBullSpread.cs:23-34 | The bull spread payoff never falls as the spot price rises. |
| Options.BearMonotone | src/MathFin.Net/Options/EuropeanBearSpread.cs:23-34 | The bear spread payoff never rises as the spot price rises. |
| Options.CallUsesSmallestStrike | src/MathFinNet/Options/EuropeanCall.cs:20-34 | A call built from several strikes pays off against the smallest of them. |
| Options.PutUsesSmallestStrike | src/MathFin.Net/Options/EuropeanPut.cs:16-30 | A put built from several strikes pays off against the smallest of them. |
| Options.HeadDecidesSingleStrike | src/MathFin.Net/Options/EuropeanPut.cs:23-30 | The call and put payoffs depend only on the first stored strike. |
| Options.MissingStrikesFail | src/UnitTests/OptionsTests/EuropeanStrangleSpreadTest.cs:18-31 | Payoffs fail when the strikes they read are missing, except the one-strike strangle below K0. |
| Options.SpreadExamples | src/UnitTests/OptionsTests/EuropeanBullSpreadTest.cs:38-44 | Spread payoffs for strikes 100 and 300 at spot prices 50, 150 and 400. |
| Options.VanillaExamples | src/UnitTests/OptionsTests/EuropeanPutTest.cs:28-34 | Call and put payoffs at strike 150. |
| Discretization.PriceStepSpans | src/MathFinNet/PDE/DiscretizationParameters.cs:41-47 | jMax steps of h span exactly [minS, maxS]. |
| Discretization.PriceStep | src/MathFinNet/PDE/DiscretizationParameters.cs:41-47 | The price increment h = (maxS - minS) / jMax; PriceStepSpans states what it means. |
| Discretization.AssetPrice | src/MathFinNet/PDE/DiscretizationParameters.cs:54-57 | The price S(j) = minS + h j at node j; AssetPriceSpans, AssetPriceEnds and the monotonicity lemmas state what it means. |
| Discretization.TimeStep | src/MathFinNet/PDE/DiscretizationParameters.cs:64-67 | The time increment k = T / iMax; TimeStepSpans states what it means. |
| Discretization.Time | src/MathFinNet/PDE/DiscretizationParameters.cs:75-78 | The time t(i) = k i at node i; TimeSpans and TimeEnds state what it means. |
| Discretization.AssetPriceSpans | src/MathFinNet/PDE/DiscretizationParameters.cs:54-57 | S(j) lies the fraction j / jMax of the way from minS to maxS. |
| Discretization.AssetPriceEnds | src/MathFinNet/PDE/DiscretizationParameters.cs:54-57 | S(0) = minS and S(jMax) = maxS. |
| Discretization.AssetPriceStep | src/MathFinNet/PDE/DiscretizationParameters.cs:54-57 | Neighbouring price nodes are h apart. |
| Discretization.AssetPriceIncreasing | src/MathFinNet/PDE/DiscretizationParameters.cs:54-57 | Node prices increase strictly when maxS > minS. |
| Discretization.TimeStepSpans | src/MathFinNet/PDE/DiscretizationParameters.cs:64-67 | iMax steps of k span exactly [0, T]. |
| Discretization.TimeSpans | src/MathFinNet/PDE/DiscretizationParameters.cs:75-78 | t(i) is the fraction i / iMax of the maturity. |
| Discretization.TimeEnds | src/MathFinNet/PDE/DiscretizationParameters.cs:75-78 | t(0) = 0 and t(iMax) = T. |
| Surfaces.FillTerminal | src/MathFin.Net/PDE/FiniteDifference/ExplicitMethod.cs:75-78 | Columns 0..jMax of the terminal row hold the terminal condition at S(j); the remaining columns keep their values. |
| Surfaces.SetTerminal | src/MathFin.Net/PDE/FiniteDifference/ExplicitMethod.cs:74-78 | Only row iMax changes, and it carries the terminal condition. |
| Surfaces.ReplaceRow | src/MathFin.Net/PDE/FiniteDifference/ExplicitMethod.cs:83-84 | Writing row i-1 with the boundary values at time k(i-1) extends the boundary-column property to row i-1 and changes nothing outside the grid. |
| Surfaces.WriteInterior | src/MathFin.Net/PDE/FiniteDifference/ImplicitMethod.cs:123-126 | Columns 1..jMax-1 receive the solution vector; columns 0 and jMax onward are kept. |
| ExplicitMethod.CoefficientSum | src/MathFin.Net/PDE/FiniteDifference/ExplicitMethod.cs:26-57 | a + b + c = 1 - k r at every node. |
| ExplicitMethod.A | src/MathFin.Net/PDE/FiniteDifference/ExplicitMethod.cs:26-29 | The weight a on V(i, j-1): (k S / 2h)(vol^2 S / h - r). Its sum with b and c is stated by CoefficientSum. |
| ExplicitMethod.B | src/MathFin.Net/PDE/FiniteDifference/ExplicitMethod.cs:40-43 | The weight b on V(i, j): 1 - k((vol S / h)^2 + r). |
| ExplicitMethod.C | src/MathFin.Net/PDE/FiniteDifference/ExplicitMethod.cs:54-57 | The weight c on V(i, j+1): (S k / 2h)(vol^2 S / h + r). |
| ExplicitMethod.Unstable | src/MathFin.Net/PDE/FiniteDifference/ExplicitMethod.cs:69 | The stability guard as written, k <= 0 and k >= h^2 / 2; GuardRejectsOnlyDegenerate states that it holds only when k = h = 0. |
| ExplicitMethod.ConstantRowDiscounts | src/MathFin.Net/PDE/FiniteDifference/ExplicitMethod.cs:86-91 | A flat later row v becomes (1 - k r) v at every interior node. |
| ExplicitMethod.GuardRejectsOnlyDegenerate | src/MathFin.Net/PDE/FiniteDifference/ExplicitMethod.cs:69-72 | The stability guard as written (k <= 0 and k >= h^2/2) holds exactly when k = 0 and h = 0, so it never fires on a grid with h != 0. |
| ExplicitMethod.StepBack | src/MathFin.Net/PDE/FiniteDifference/ExplicitMethod.cs:83-91 | Row i-1 holds the boundary values, the three-term combination of row i at every interior node, and unchanged columns past jMax. |
| ExplicitMethod.ExtendRecurrence | src/MathFin.Net/PDE/FiniteDifference/ExplicitMethod.cs:80-92 | Writing a row that satisfies the recurrence extends the recurrence by one row. |
| ExplicitMethod.Solve | src/MathFin.Net/PDE/FiniteDifference/ExplicitMethod.cs:67-93 | Fails exactly when iMax >= 1 and the guard fires. On success the result has the same shape, keeps every cell outside the grid, and holds the terminal row. With iMax = 0 nothing else is written. With iMax >= 1 the result also holds the boundary columns, and every interior cell of rows 0..iMax-1 is the combination of the row after it. |
| ImplicitMethod.CoefficientSum | src/MathFin.Net/PDE/FiniteDifference/ImplicitMethod.cs:23-54 | a + b + c = 1 + k r at every node. |
| ImplicitMethod.A | src/MathFin.Net/PDE/FiniteDifference/ImplicitMethod.cs:23-26 | The weight a on V(i-1, j-1): (k / 2h)(r S - (vol S)^2 / h). Its sum with b and c is stated by CoefficientSum. |
| ImplicitMethod.B | src/MathFin.Net/PDE/FiniteDifference/ImplicitMethod.cs:37-40 | The weight b on V(i-1, j): 1 + k(r + (vol S / h)^2). |
| ImplicitMethod.C | src/MathFin.Net/PDE/FiniteDifference/ImplicitMethod.cs:51-54 | The weight c on V(i-1, j+1): (-k / 2h)(r S + (vol S)^2 / h). |
| ImplicitMethod.MatrixA | src/MathFin.Net/PDE/FiniteDifference/ImplicitMethod.cs:63-87 | The three loops build the (jMax-1)-square matrix with b(S(r+1)) on the diagonal, a(S(r+1)) below it, c(S(r+1)) above it, and zeros elsewhere. |
| ImplicitMethod.Correction | src/MathFin.Net/PDE/FiniteDifference/ImplicitMethod.cs:115-117 | The correction holds upper * c(S(jMax-1)) in the last entry and lower * a(S(1)) in the first (when they differ), with zeros between. |
| ImplicitMethod.SingleNodeDropsLowerBoundary | src/MathFin.Net/PDE/FiniteDifference/ImplicitMethod.cs:115-117 | With jMax = 2 the second write overwrites the first, so the lower boundary term is lost. |
| ImplicitMethod.CorrectionIsEndCorrection | src/MathFin.Net/PDE/FiniteDifference/ImplicitMethod.cs:115-117 | The correction equals the generic end-correction of the sub- and super-diagonals. |
| ImplicitMethod.StepIsImplicitStep | src/MathFin.Net/PDE/FiniteDifference/ImplicitMethod.cs:115-121 | One step of the scheme is an instance of the generic implicit step. |
| ImplicitMethod.ExtendSteps | src/MathFin.Net/PDE/FiniteDifference/ImplicitMethod.cs:107-127 | Writing a solved row extends the step property by one row. |
| ImplicitMethod.Solve | src/MathFin.Net/PDE/FiniteDifference/ImplicitMethod.cs:97-128 | Fails exactly when jMax < 2 (no interior node). On success the result has the same shape, keeps every cell outside the grid, and holds the terminal row. With iMax = 0 nothing else is written. With iMax >= 1 the result also holds the boundary columns, and each earlier row's interior is the solver's answer to `A x = y - z` for the row after it. |
| ImplicitMethod.RowScheme | src/MathFin.Net/PDE/FiniteDifference/ImplicitMethod.cs:118-126 | When the solver is exact and jMax >= 3: a(j) V[i-1][j-1] + b(j) V[i-1][j] + c(j) V[i-1][j+1] = V[i][j] at each interior node. |
| ImplicitMethod.SolvedRowsSatisfyScheme | src/MathFin.Net/PDE/FiniteDifference/ImplicitMethod.cs:107-127 | Every row the solver writes satisfies the implicit difference equation against the row after it. |
| ImplicitMethod.SingleNodeRow | src/MathFin.Net/PDE/FiniteDifference/ImplicitMethod.cs:115-126 | With jMax = 2 the single node satisfies b(1) V[i-1][1] + c(1) V[i-1][2] = V[i][1]: the lower boundary does not enter. |
| ImplicitMethod.SingleNodeScheme | src/MathFin.Net/PDE/FiniteDifference/ImplicitMethod.cs:107-127 | The single-node equation holds at every row of a solved surface. |
| CrankNicolson.LaterWeightsAreHalfExplicit | src/MathFin.Net/PDE/FiniteDifference/CrankNicolson.cs:27-58 | a, b and c are the explicit weights at half the time step. |
| CrankNicolson.EarlierWeightsAreHalfImplicit | src/MathFin.Net/PDE/FiniteDifference/CrankNicolson.cs:69-100 | d, e and f are the implicit weights at half the time step. |
| CrankNicolson.CoefficientSum | src/MathFin.Net/PDE/FiniteDifference/CrankNicolson.cs:27-58 | a + b + c = 1 - k r / 2. |
| CrankNicolson.EarlierCoefficientSum | src/MathFin.Net/PDE/FiniteDifference/CrankNicolson.cs:69-100 | d + e + f = 1 + k r / 2. |
| CrankNicolson.A | src/MathFin.Net/PDE/FiniteDifference/CrankNicolson.cs:27-30 | The later-row weight a: (k / 4h)((vol S)^2 / h - r S). Its sum with b and c is stated by CoefficientSum. |
| CrankNicolson.B | src/MathFin.Net/PDE/FiniteDifference/CrankNicolson.cs:41-44 | The later-row weight b: 1 - (k / 2)((vol S / h)^2 + r). |
| CrankNicolson.C | src/MathFin.Net/PDE/FiniteDifference/CrankNicolson.cs:55-58 | The later-row weight c: (k / 4h)((vol S)^2 / h + r S). |
| CrankNicolson.D | src/MathFin.Net/PDE/FiniteDifference/CrankNicolson.cs:69-72 | The earlier-row weight d = -a. Its sum with e and f is stated by EarlierCoefficientSum. |
| CrankNicolson.E | src/MathFin.Net/PDE/FiniteDifference/CrankNicolson.cs:83-86 | The earlier-row weight e = 2 - b. |
| CrankNicolson.F | src/MathFin.Net/PDE/FiniteDifference/CrankNicolson.cs:97-100 | The earlier-row weight f = -c. |
| CrankNicolson.NodeWeightsComplement | src/MathFin.Net/PDE/FiniteDifference/CrankNicolson.cs:69-100 | a + d = 0, b + e = 2 and c + f = 0 at every node. |
| CrankNicolson.MatricesAandB | src/MathFin.Net/PDE/FiniteDifference/CrankNicolson.cs:109-137 | Builds two (jMax-1)-square tridiagonal matrices: A from a, b, c and B from d, e, f, each at S(r+1), with zeros off the band. |
| CrankNicolson.MatricesSumToTwiceIdentity | src/MathFin.Net/PDE/FiniteDifference/CrankNicolson.cs:109-137 | A + B is twice the identity. |
| CrankNicolson.CorrectionIsEndCorrections | src/MathFin.Net/PDE/FiniteDifference/CrankNicolson.cs:165-169 | The correction z is the later row's end correction under A minus the earlier row's end correction under B. |
| CrankNicolson.Correction | src/MathFin.Net/PDE/FiniteDifference/CrankNicolson.cs:165-169 | A vector of length jMax - 1 with the two boundary differences written at its ends, the upper one last; CorrectionIsEndCorrections states what it is. |
| CrankNicolson.SingleNodeDropsLowerBoundary | src/MathFin.Net/PDE/FiniteDifference/CrankNicolson.cs:165-169 | With jMax = 2 the second write overwrites the first, so z keeps only the upper-boundary terms. |
| CrankNicolson.StepIsBalancedStep | src/MathFin.Net/PDE/FiniteDifference/CrankNicolson.cs:165-179 | One step of the scheme is an instance of the generic balanced step `B x = A y + z`. |
| CrankNicolson.ExtendSteps | src/MathFin.Net/PDE/FiniteDifference/CrankNicolson.cs:157-180 | Writing a solved row extends the step property by one row. |
| CrankNicolson.Solve | src/MathFin.Net/PDE/FiniteDifference/CrankNicolson.cs:147-182 | Fails exactly when jMax < 2. On success the result has the same shape, keeps every cell outside the grid, and holds the terminal row. With iMax = 0 nothing else is written. With iMax >= 1 the result also holds the boundary columns, and each earlier row's interior is the solver's answer to `B x = A y + z`. |
| CrankNicolson.RowScheme | src/MathFin.Net/PDE/FiniteDifference/CrankNicolson.cs:170-179 | When the solver is exact and jMax >= 3: d V[i-1][j-1] + e V[i-1][j] + f V[i-1][j+1] = a V[i][j-1] + b V[i][j] + c V[i][j+1]. |
| CrankNicolson.BalancedAtNode | src/MathFin.Net/PDE/FiniteDifference/CrankNicolson.cs:170-179 | The same balance, stated for any balanced step. |
| CrankNicolson.SolvedRowsSatisfyScheme | src/MathFin.Net/PDE/FiniteDifference/CrankNicolson.cs:157-180 | Every row the solver writes satisfies the Crank-Nicolson difference equation against the row after it. |
| CrankNicolson.SingleNodeRow | src/MathFin.Net/PDE/FiniteDifference/CrankNicolson.cs:165-179 | With jMax = 2: e(1) V[i-1][1] + f(1) V[i-1][2] = b(1) V[i][1] + c(1) V[i][2]. No column-0 value enters. |
| CrankNicolson.SingleNodeScheme | src/MathFin.Net/PDE/FiniteDifference/CrankNicolson.cs:157-180 | The single-node balance holds at every row of a solved surface. |
| LinearAlgebra.BuildTridiagonal | src/MathFin.Net/PDE/FiniteDifference/ImplicitMethod.cs:65-86 | The loop construction equals the reference tridiagonal matrix. |
| LinearAlgebra.DotWindow | src/MathFin.Net/PDE/FiniteDifference/CrankNicolson.cs:171 | A row that is zero outside columns r-1..r+1 has a dot product of three terms. |
| LinearAlgebra.TridiagonalTimes | src/MathFin.Net/PDE/FiniteDifference/CrankNicolson.cs:171 | Row r of a tridiagonal product is sub[r] x[r-1] + diag[r] x[r] + sup[r] x[r+1], with missing neighbours dropped. |
| LinearAlgebra.SolvedBand | src/MathFin.Net/PDE/FiniteDifference/ImplicitMethod.cs:121 | An exact solve satisfies every band row of the system. |
| LinearAlgebra.EndCorrectionEntries | src/MathFin.Net/PDE/FiniteDifference/ImplicitMethod.cs:115-117 | A vector with the boundary terms at its ends and zeros between is the end correction. |
| LinearAlgebra.EndCorrectionsEntries | src/MathFin.Net/PDE/FiniteDifference/CrankNicolson.cs:165-169 | A vector whose end entries are the differences of two boundary terms is the difference of two end corrections. |
| LinearAlgebra.BandWithEnds | src/MathFin.Net/PDE/FiniteDifference/ImplicitMethod.cs:115-121 | A band row on the interior plus the end correction is the full three-term stencil on the whole row. |
| LinearAlgebra.BandWithEndsSingle | src/MathFin.Net/PDE/FiniteDifference/ImplicitMethod.cs:115-121 | With one interior node, only the upper neighbour enters. |
| LinearAlgebra.ImplicitStepNode | src/MathFin.Net/PDE/FiniteDifference/ImplicitMethod.cs:115-126 | An exactly solved implicit step satisfies the three-term stencil at each interior node. |
| LinearAlgebra.ImplicitStepSingle | src/MathFin.Net/PDE/FiniteDifference/ImplicitMethod.cs:115-126 | The single-node form of the same property. |
| LinearAlgebra.TridiagonalSumTwiceIdentity | src/MathFin.Net/PDE/FiniteDifference/CrankNicolson.cs:116-134 | Two bands whose entries are complementary (0, 2, 0) sum to twice the identity. |
| LinearAlgebra.BalancedStepNode | src/MathFin.Net/PDE/FiniteDifference/CrankNicolson.cs:165-179 | An exactly solved balanced step equates the earlier stencil with the later stencil at each interior node. |
| LinearAlgebra.BalancedStepSingle | src/MathFin.Net/PDE/FiniteDifference/CrankNicolson.cs:165-179 | The single-node form of the same property. |
| Interpolation.PriceAt | src/MathFin.Net/ExtensionMethods/DenseMatrixExtension.cs:22-32 | Defined exactly when both steps are non-zero, both floors fit in 32 bits and the four corner cells exist; the model checks every corner read. The older copy in src/MathFinNet/ExtensionMethods/DenseMatrixExtension.cs computes the same blend. |
| Interpolation.FloorBrackets | src/MathFin.Net/ExtensionMethods/DenseMatrixExtension.cs:24-25 | The floor index brackets the point: index * step <= x < (index + 1) * step. |
| Interpolation.TimeIndexBrackets | src/MathFin.Net/ExtensionMethods/DenseMatrixExtension.cs:24-27 | t lies in [t(i), t(i+1)) and the time weight lies in [0, 1). |
| Interpolation.PriceIndexIgnoresMinS | src/MathFin.Net/ExtensionMethods/DenseMatrixExtension.cs:25-29 | The price index is taken from S / h without subtracting minS; only the weight shifted by minS / h lies in [0, 1). |
| Interpolation.PriceWeightRange | src/MathFin.Net/ExtensionMethods/DenseMatrixExtension.cs:25-29 | With minS = 0 the price weight lies in [0, 1). With minS >= h it is negative, so the blend extrapolates. |
| Interpolation.TimeIndex | src/MathFin.Net/ExtensionMethods/DenseMatrixExtension.cs:24 | The row i = floor(t / k) below t; TimeIndexBrackets states that it brackets t. |
| Interpolation.PriceIndex | src/MathFin.Net/ExtensionMethods/DenseMatrixExtension.cs:25 | The column j = floor(S / h), taken without subtracting minS; PriceIndexIgnoresMinS states what it brackets. |
| Interpolation.TimeWeight | src/MathFin.Net/ExtensionMethods/DenseMatrixExtension.cs:26 | The time weight l1 = (t - t(i)) / k; TimeIndexBrackets states that it lies in [0, 1). |
| Interpolation.PriceWeight | src/MathFin.Net/ExtensionMethods/DenseMatrixExtension.cs:28 | The price weight w1 = (S - S(j)) / h; PriceWeightRange states where it lies. |
| Interpolation.BlendWeightsSum | src/MathFin.Net/ExtensionMethods/DenseMatrixExtension.cs:26-31 | The four blend weights sum to 1. |
| Interpolation.BlendIsBilinear | src/MathFin.Net/ExtensionMethods/DenseMatrixExtension.cs:31 | The four-term blend equals two nested linear interpolations. |
| Interpolation.PriceAtIsBilinear | src/MathFin.Net/ExtensionMethods/DenseMatrixExtension.cs:24-31 | PriceAt is the bilinear interpolation of its four corners. |
| Interpolation.LerpBetween | src/MathFin.Net/ExtensionMethods/DenseMatrixExtension.cs:31 | A linear interpolation with weight in [0, 1] lies between its end values. |
| Interpolation.BilinearBounded | src/MathFin.Net/ExtensionMethods/DenseMatrixExtension.cs:31 | A bilinear blend with weights in [0, 1] lies between the least and greatest corner. |
| Interpolation.PriceAtBounded | src/MathFin.Net/ExtensionMethods/DenseMatrixExtension.cs:24-31 | With minS = 0 and positive steps, PriceAt lies between the least and greatest of its four corners. |
| Interpolation.PriceAtNode | src/MathFin.Net/ExtensionMethods/DenseMatrixExtension.cs:24-31 | At a grid node (t(i), S(j)) with minS = 0, PriceAt returns V[i][j]. |
| Interpolation.PriceAtFailsAtMaturity | src/MathFin.Net/ExtensionMethods/DenseMatrixExtension.cs:24-31 | At t = T the time index is iMax, so the blend needs row iMax + 1, which the surface lacks; the model, which checks every read, returns None. |
| Interpolation.PriceAtFailsAtMaxPrice | src/MathFin.Net/ExtensionMethods/DenseMatrixExtension.cs:25-31 | At S = maxS (with minS = 0) the blend needs column jMax + 1, which the surface lacks, so PriceAt returns None. |
| Interpolation.PriceAtExample | src/UnitTests/ExtensionMethodsTests/DenseMatrixExtensionTest.cs:22-28 | On the 2x2 surface [[1,2],[3,4]] over Grid(0, 20, 1, 1), PriceAt(0.25, 5) is 1.75. |

## Left out

- The LU solve and the MathNet matrix and vector types are not part of this model. The solver is the parameter `solve` of type `Solver`: any function returning a vector of the right length. The scheme lemmas add the hypothesis `SolvesExactly` (M x = rhs for every rhs). Singular matrices and rounding inside the factorisation are not modelled.
- IEEE doubles are replaced by exact reals. NaN, infinities and rounding are not modelled. `Math.Pow(x, 2)` is written `x * x`.
- Discretization.PriceStep, Discretization.AssetPrice, Discretization.TimeStep, Discretization.Time: require jMax != 0 or iMax != 0. In C# a zero count divides to infinity or NaN instead of throwing.
- ExplicitMethod.Solve: requires jMax >= 1, a surface that fits the grid, and, when iMax >= 1, h != 0 unless k = 0. With h = 0 and k != 0 the C# code runs on NaN weights. `DenseMatrix.At` does no range check, so writes outside the surface are undefined behaviour and are excluded by `Fits`. With iMax = 0 the time step k = T / 0 is not a real number. The C# guard never fires then, and the backward loop does not run, so the source returns the surface with only the terminal row written. The model returns that surface without computing k.
- ImplicitMethod.Solve: requires a fitting surface and, when iMax >= 1 and jMax >= 2, h != 0. With jMax < 2 the C# code throws (an order-0 matrix, or a write to `z[0]` of an empty vector) after it has written the terminal row. The model returns `NoInteriorNodes` and drops that partial write. This includes iMax = 0 with jMax = 1, where only the order-0 matrix could throw; the model assumes the matrix library rejects it. With iMax = 0 and jMax >= 2 the source builds the matrix from the non-real step k and then skips the loop. The model returns the surface with only the terminal row written, without building the matrix.
- CrankNicolson.Solve: the same preconditions, the same treatment of jMax < 2 and the same treatment of iMax = 0 as the implicit method.
- Interpolation.PriceAt: `Convert.ToInt32` of a NaN or out-of-range floor throws, and is modelled as `None`. The model checks every corner read and returns `None` for any corner outside the surface. MathNet's `DenseMatrix` stores cells column by column, and its `At` does no range check. So in the source, a row index just past the last row reads row 0 of the next column instead of failing. A column index past the last column runs off the storage and throws.
- Interpolation.PriceAtFailsAtMaturity: in the source, at t = T with price index j <= jMax - 2, the reads of row iMax + 1 land on cells (0, j + 1) and (0, j + 2) of row 0. Those cells carry the time weight l1 = 0, so the source returns the price interpolated on row iMax. The model's checked read turns this case into `None`.
- Options.NewOption: the C# constructors store the caller's array and sort it in place (the constructor assigns the array to `K`, then calls `Array.Sort` on it), so a caller who passes an explicit array sees it sorted, and the public `K` setter exposes the stored array. The model returns a fresh sorted copy, with no aliasing.
- ImplicitMethod.Correction, CrankNicolson.Correction: the source-shaped definitions carry only the entries (or only the length). Their meaning is stated by CorrectionIsEndCorrection and CorrectionIsEndCorrections.
- The explicit stability guard, the jMax = 2 overwrite of the first correction entry, and the price index taken without subtracting minS are all modelled as the code is written. Each has a lemma that shows its effect: GuardRejectsOnlyDegenerate, SingleNodeDropsLowerBoundary, PriceIndexIgnoresMinS and PriceWeightRange.
- The dividend yield of `BlackScholesModel` and its spot price `s0` are stored but never read by the kernel.
- `Conditions` holds the terminal and boundary conditions as function values. Delegates that throw or have side effects are not modelled.
- The example programs and the other parts of the library outside the pricing kernel are not part of this model.
- Where the library's documentation and its code differ (the guard, the jMax = 2 overwrite, the minS offset in `PriceAt`), the model follows the code.
