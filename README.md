# Matrix_2 core in Dafny

This project models the exact, structural core of a small C++ numerics library. The library has:

- Cartesian complex numbers (`Complex_C_t`);
- the multiplicative part of polar complex numbers (`Complex_P_t`);
- polynomials stored as complex coefficient vectors (`Poly_Coeff_t`): addition, subtraction, multiplication, evaluation, `CompressFactors` (linear factors to coefficients), and the discrete skeleton of the Durand–Kerner root finder `FactorizePoly`;
- a fixed-size, bounds-checked `Matrix<T>` and `Vector<T>`.

The element type `T` and every `double` are modelled as `real`, and `size_t` as `nat`. A wrap-around of an unsigned size is modelled as the error it leads to. A thrown `std::invalid_argument`, `std::out_of_range` or `std::length_error` becomes `Failure(...)` of a `Result`. Where the source would go on computing with an infinity or a NaN, the model returns `None`.

The modules follow the source:

| module | file | models |
|---|---|---|
| `Wrappers` | wrappers.dfy | `Option`, `Result` and the exception classes |
| `ComplexC` | complex_c.dfy | src/Complex_C.cpp (a datatype and functions) |
| `ComplexP` | complex_p.dfy | the multiplicative operators of src/Complex_P.cpp |
| `Elementwise` | elementwise.dfy | the slot-by-slot arithmetic of the vector and matrix storage |
| `Poly` | poly.dfy | the coefficient-vector operators and `getValCompressedPoly` of src/Poly.cpp |
| `PolyCompress` | poly_compress.dfy | `CompressFactors` as written, and the expansion it is meant to compute |
| `PolyFactorize` | poly_factorize.dfy | the skeleton of `FactorizePoly` |
| `Vectors` | vector.dfy | inc/Vector.h (a class over `array<real>`) |
| `MatrixSpec` | matrix_spec.dfy | grids, row-major layout, transpose, sub-matrix, product, determinant, adjugate, inverse |
| `Matrices` | matrix.dfy | inc/Matrix.h (a class over `array<real>`) |

The loops of the source are methods with loop invariants. Each method is proved against a specification function, and the lemmas relate those functions to each other:
- evaluation turns the polynomial operators into complex arithmetic;
- the expansion of factors evaluates to their product;
- transposing twice gives back the matrix;
- the identity is a unit of the matrix product;
- a zero row gives a zero determinant;
- the 2 x 2 inverse is a right inverse;
- and so on.

## Model

| member | source | states |
|---|---|---|
| ComplexC.Add | src/Complex_C.cpp:10-13 | 0 added on either side gives back the other operand |
| ComplexC.AddReal | src/Complex_C.cpp:16-19 | `z + d` is `z + {d, 0}` |
| ComplexC.RealAdd | src/Complex_C.cpp:22-26 | `d + z` is `{d, 0} + z` |
| ComplexC.Sub | src/Complex_C.cpp:41-44 | the difference is 0 exactly when the operands are equal |
| ComplexC.SubReal | src/Complex_C.cpp:47-50 | `z - d` is `z - {d, 0}` |
| ComplexC.RealSub | src/Complex_C.cpp:53-56 | `d - z` is `{d, 0} - z` |
| ComplexC.Neg | src/Complex_C.cpp:59-62 | `-z` is the additive inverse of `z`, and equals `z` only when `z` is 0 |
| ComplexC.Mul | src/Complex_C.cpp:77-83 | 1 on either side gives back the other operand; 0 on either side gives 0 |
| ComplexC.MulReal | src/Complex_C.cpp:86-89 | `z * d` is `z * {d, 0}` |
| ComplexC.RealMul | src/Complex_C.cpp:92-96 | `d * z` is `{d, 0} * z` |
| ComplexC.Div | src/Complex_C.cpp:111-118 | requires `re^2 + im^2` of the divisor nonzero; the quotient times the divisor is the dividend |
| ComplexC.DivReal | src/Complex_C.cpp:121-124 | requires a nonzero `d`; `(z / d) * d` is `z` |
| ComplexC.RealDiv | src/Complex_C.cpp:127-134 | requires `re^2 + im^2` of the divisor nonzero; `d / z` is `{d, 0} / z` |
| ComplexC.Conjugate | src/Complex_C.cpp:214-217 | the conjugate has the same `re^2 + im^2`, and `z * conj(z)` is that real number |
| ComplexC.AddRealOverloads | src/Complex_C.cpp:16-26 | `z + d`, `d + z` and `z + {d, 0}` agree: adding a real changes only the real part |
| ComplexC.AddCommutes | src/Complex_C.cpp:10-13 | complex addition is commutative |
| ComplexC.AddAssociates | src/Complex_C.cpp:10-13 | complex addition is associative |
| ComplexC.AddZero | src/Complex_C.cpp:10-13 | 0 is the unit of addition on both sides |
| ComplexC.SubRealOverloads | src/Complex_C.cpp:47-56 | `z - d` is `z - {d, 0}`, and `d - z` is `{d - re, -im}` |
| ComplexC.SubIsAddNeg | src/Complex_C.cpp:41-62 | `a - b == a + (-b)` |
| ComplexC.NegInverse | src/Complex_C.cpp:59-62 | unary minus is an involution, `z + (-z) == 0` and `z - z == 0` |
| ComplexC.MulRealOverloads | src/Complex_C.cpp:86-96 | `z * d`, `d * z` and `z * {d, 0}` agree: a real scales both parts |
| ComplexC.MulCommutes | src/Complex_C.cpp:77-83 | `(ac - bd, ad + bc)` is commutative |
| ComplexC.MulAssociates | src/Complex_C.cpp:77-83 | complex multiplication is associative |
| ComplexC.MulOne | src/Complex_C.cpp:77-83 | 1 is the unit of multiplication |
| ComplexC.MulZero | src/Complex_C.cpp:77-83 | multiplying by 0 gives 0 |
| ComplexC.MulDistributes | src/Complex_C.cpp:77-83 | multiplication distributes over addition on both sides |
| ComplexC.MulSub | src/Complex_C.cpp:77-83 | multiplication distributes over subtraction |
| ComplexC.NormSqMultiplies | src/Complex_C.cpp:113 | the divisor `re^2 + im^2` of a product is the product of the divisors |
| ComplexC.DivMulCancel | src/Complex_C.cpp:111-118 | for a nonzero divisor r, `(l / r) * r == l` |
| ComplexC.MulDivCancel | src/Complex_C.cpp:111-118 | for a nonzero divisor r, `(l * r) / r == l` |
| ComplexC.DivRealOverloads | src/Complex_C.cpp:121-134 | `d / r == {d, 0} / r`, and `z / d` multiplied by `d` gives back `z` |
| ComplexC.NonZeroDivisor | src/Complex_C.cpp:113 | `re^2 + im^2` is nonzero exactly when the value is not 0, so `Div` accepts every divisor but 0 |
| ComplexC.ConjugateProperties | src/Complex_C.cpp:214-217 | the conjugate negates only the imaginary part and is an involution; `z * conj(z)` is the real `re^2 + im^2` |
| ComplexC.ConjugateOfProduct | src/Complex_C.cpp:214-217 | the conjugate of a product is the product of the conjugates |
| ComplexC.AddAssign | src/Complex_C.cpp:29-32 | after `l += r` each part of `l` is the sum of the parts |
| ComplexC.AddAssignReal | src/Complex_C.cpp:35-38 | after `l += d` the real part grew by `d` and the imaginary part is kept |
| ComplexC.SubAssign | src/Complex_C.cpp:65-68 | after `l -= r`, adding `r` back gives the old `l` |
| ComplexC.SubAssignReal | src/Complex_C.cpp:71-74 | after `l -= d`, adding `d` back gives the old `l` |
| ComplexC.MulAssign | src/Complex_C.cpp:99-102 | after `l *= r`, `l` is `(ac - bd, ad + bc)` |
| ComplexC.MulAssignReal | src/Complex_C.cpp:105-108 | `l *= d` is multiplication by `{d, 0}` |
| ComplexC.DivAssign | src/Complex_C.cpp:137-140 | after `l /= r` with r nonzero, multiplying by `r` gives the old `l` |
| ComplexC.DivAssignReal | src/Complex_C.cpp:143-146 | after `l /= d` with d nonzero, scaling by `d` gives the old `l` |
| ComplexC.Eq | src/Complex_C.cpp:149-152 | `==` holds iff the two values are equal |
| ComplexC.EqReal | src/Complex_C.cpp:155-158 | `z == d` holds iff `z` is `{d, 0}` |
| ComplexC.RealEq | src/Complex_C.cpp:161-164 | `d == z` holds iff `z` is `{d, 0}` |
| ComplexC.Neq | src/Complex_C.cpp:167-170 | `!=` holds iff the values differ |
| ComplexC.NeqReal | src/Complex_C.cpp:173-176 | `z != d` holds iff `z` is not `{d, 0}` |
| ComplexC.RealNeq | src/Complex_C.cpp:179-182 | `d != z` holds iff `z` is not `{d, 0}` |
| ComplexP.Neg | src/Complex_P.cpp:73-76 | `-z` is `z` scaled by -1 |
| ComplexP.Mul | src/Complex_P.cpp:95-98 | the polar 1 `(1, 0)` on either side gives back the other operand; the product's magnitude is 0 exactly when one operand's is |
| ComplexP.MulReal | src/Complex_P.cpp:101-104 | `z * d` is `z * (d, 0)` |
| ComplexP.RealMul | src/Complex_P.cpp:107-110 | `d * z` is `(d, 0) * z` |
| ComplexP.Div | src/Complex_P.cpp:125-128 | requires a nonzero divisor magnitude; the quotient times the divisor is the dividend |
| ComplexP.DivReal | src/Complex_P.cpp:131-134 | requires a nonzero `d`; `(z / d) * d` is `z` |
| ComplexP.NegInvolution | src/Complex_P.cpp:73-76 | unary minus flips the sign of the magnitude, keeps the argument and is an involution |
| ComplexP.NegIsScaling | src/Complex_P.cpp:73-76 | unary minus is scaling by -1 |
| ComplexP.MulCommutes | src/Complex_P.cpp:95-98 | polar multiplication is commutative |
| ComplexP.MulAssociates | src/Complex_P.cpp:95-98 | polar multiplication is associative |
| ComplexP.MulDivCancel | src/Complex_P.cpp:125-128 | for a nonzero magnitude, `(a * b) / b == a` and `(a / b) * b == a` as pairs |
| ComplexP.ScalarOverloads | src/Complex_P.cpp:101-134 | scalar `*` and `/` act on the magnitude alone, agree in both arrangements, and match the polar value `(d, 0)` |
| ComplexP.MulAssign | src/Complex_P.cpp:113-116 | after `l *= r` the magnitudes are multiplied and the arguments added |
| ComplexP.MulAssignReal | src/Complex_P.cpp:119-122 | after `l *= d` the magnitude is scaled and the argument kept |
| ComplexP.DivAssign | src/Complex_P.cpp:145-148 | after `l /= r`, multiplying by `r` gives the old `l` |
| ComplexP.DivAssignReal | src/Complex_P.cpp:151-154 | after `l /= d`, scaling by `d` gives the old `l` |
| ComplexP.Eq | src/Complex_P.cpp:157-160 | `==` holds iff magnitude and argument both match |
| ComplexP.EqReal | src/Complex_P.cpp:163-166 | `z == d` holds iff the magnitude is `d` and the argument 0 |
| ComplexP.RealEq | src/Complex_P.cpp:169-172 | `d == z` holds iff the magnitude is `d` and the argument 0 |
| ComplexP.Neq | src/Complex_P.cpp:175-178 | `!=` is the negation of `==` |
| ComplexP.NeqReal | src/Complex_P.cpp:181-184 | `z != d` is the negation of `z == d` |
| ComplexP.RealNeq | src/Complex_P.cpp:187-190 | `d != z` is the negation of `d == z` |
| Elementwise.PlusUndoesMinus | inc/Matrix.h:139-179 | adding back what the storage-wise `-` subtracted restores the minuend |
| Elementwise.MinusSelf | inc/Matrix.h:163-179 | subtracting storage from itself gives zeros |
| Elementwise.PlusCommutes | inc/Matrix.h:139-155 | storage-wise `+` is commutative |
| Elementwise.TimesCommutes | inc/Matrix.h:187-203 | the cellwise product is commutative |
| Elementwise.QuotientUndoesScale | inc/Matrix.h:210-220 | dividing by a nonzero number undoes scaling by it |
| Poly.PolyAdd | src/Poly.cpp:10-37 | the result has length `max(|L|, |R|)` and entry i is `L[i] + R[i]`, a missing entry read as 0 |
| Poly.PolySub | src/Poly.cpp:40-67 | the result has length `max(|L|, |R|)` and entry i is `L[i] - R[i]`; the tail of a longer `R` is negated |
| Poly.PolyMul | src/Poly.cpp:70-83 | two empty operands fail with `length_error`; otherwise the result has length `|L| + |R| - 1` and entry k is the convolution sum over `i + j == k` |
| Poly.GetValCompressedPoly | src/Poly.cpp:202-214 | the value of the polynomial, `sum c[i] x^i`; undefined (`None`) exactly when `x` is 0 and some coefficient is nonzero |
| Poly.SkipsZero | src/Poly.cpp:207-210 | skipping a zero coefficient does not change the sum |
| Poly.SumCommutes | src/Poly.cpp:10-37 | `operator+` is commutative |
| Poly.DiffSelf | src/Poly.cpp:40-67 | `L - L` has the length of `L` and only zero coefficients |
| Poly.Units | src/Poly.cpp:10-83 | the empty vector is the unit of `+` and `[1]` the unit of `*`, each on both sides and for every operand, the empty one included |
| Poly.EvalIsHorner | src/Poly.cpp:202-214 | the index-order sum is Horner's value |
| Poly.HornerSum | src/Poly.cpp:10-37 | the value of a sum is the sum of the values |
| Poly.HornerDiff | src/Poly.cpp:40-67 | the value of a difference is the difference of the values |
| Poly.HornerProduct | src/Poly.cpp:70-83 | the value of a product is the product of the values |
| Poly.EvalHomomorphism | src/Poly.cpp:10-83 | evaluation at any point turns `+`, `-` and `*` on coefficient vectors into complex `+`, `-` and `*` |
| PolyCompress.CompressFactors | src/Poly.cpp:136-199 | the result has N + 1 entries: the product of the roots, then for each middle power the sum over pivots of the cyclic-window products, then the product of the scales |
| PolyCompress.ExpandFactors | src/Poly.cpp:136-199 | the factors multiplied out one at a time with the polynomial product, starting from `[1]` |
| PolyCompress.LinearEvaluates | src/Poly.cpp:136-199 | the coefficients `[root, scale]` evaluate to `scale*x + root` |
| PolyCompress.ExpandEvaluates | src/Poly.cpp:136-199 | the expansion evaluates at every point to the product of the factors' values |
| PolyCompress.ScaleProductIsReal | src/Poly.cpp:157-167 | the leading coefficient is the real product of the scales |
| PolyCompress.EndsAgree | src/Poly.cpp:144-167 | for every N the constant coefficient is the product of the roots and the leading one the product of the scales, both as computed and in the expansion |
| PolyCompress.AgreeOne | src/Poly.cpp:136-199 | one factor gives `[root, scale]`, which is its expansion |
| PolyCompress.CompressedTwo | src/Poly.cpp:169-195 | two factors give `[r0 r1, s0 r1 + s1 r0, s0 s1]` |
| PolyCompress.AgreeTwo | src/Poly.cpp:169-195 | for two factors the result is the expansion |
| PolyCompress.DocExample | src/Poly.cpp:136-199 | `(x - 3)(x + 2)` compresses to `{-6, -1, 1}`, the expansion |
| PolyCompress.CompressedThree | src/Poly.cpp:169-195 | for three factors each middle power is the sum of the three pivots' windows |
| PolyCompress.WindowThree | src/Poly.cpp:172-190 | a pivot's window over three factors: its scale, the next factor's scale or root, the last factor's root |
| PolyCompress.AgreeThree | src/Poly.cpp:169-195 | for three factors the result is the expansion |
| PolyCompress.AgreeUpToThree | src/Poly.cpp:136-199 | for at most three factors the result is the expansion; no factors give `[1]` |
| PolyCompress.RepeatedDiffer | src/Poly.cpp:169-195 | for four equal factors `s*x + r` the computed x^2 coefficient equals the expansion's only when `s^2 r^2 == 0` |
| PolyCompress.FourFactorsCounterexample | src/Poly.cpp:169-195 | four copies of `x + 1` give a result that differs from their expansion |
| PolyFactorize.FirstNonzero | src/Poly.cpp:227-235 | the first nonzero coefficient when there is one, nothing when all are zero |
| PolyFactorize.SubProductOf | src/Poly.cpp:279-286 | the product of `cur[i] - cur[j]` over every `j != i`, in index order |
| PolyFactorize.UpdatePass | src/Poly.cpp:275-289 | the pass fails exactly when some new estimate is undefined; otherwise `next[i]` is `cur[i] - p(cur[i]) / sub_product(i)`, computed from `cur` alone |
| PolyFactorize.ConvergenceCheck | src/Poly.cpp:291-303 | the flag holds iff there is at least one root and every root's modulus moved by less than the tolerance |
| PolyFactorize.Round | src/Poly.cpp:273-305 | one trip of the loop: the pass, the convergence flag, and `currentValues = nextValues` |
| PolyFactorize.RunIterations | src/Poly.cpp:267-306 | the loop stops after the pass that converges or after the iteration cap, and returns the estimates that pass produced |
| PolyFactorize.Factorize | src/Poly.cpp:217-317 | the whole function on given seeds: the error cases, then one factor `(1, -root)` per final estimate |
| PolyFactorize.PassEntries | src/Poly.cpp:275-289 | a pass is defined iff every entry is, and entry i is then the new estimate for root i |
| PolyFactorize.StopsAtNone | src/Poly.cpp:288 | once one estimate is undefined, so is the pass |
| PolyFactorize.CoincidentEstimates | src/Poly.cpp:279-286 | two equal estimates make the other root's `sub_product` zero |
| PolyFactorize.CoincidentPassUndefined | src/Poly.cpp:279-288 | a pass over two equal estimates divides by zero |
| PolyFactorize.ExactRootsFixed | src/Poly.cpp:271-306 | exact roots with distinct estimates do not move, and the iteration stops at them |
| PolyFactorize.IterateLength | src/Poly.cpp:271-306 | the iteration keeps one estimate per root |
| PolyFactorize.FactorizationShape | src/Poly.cpp:219-316 | size 0 throws `out_of_range`; sizes 1 and 2 throw `invalid_argument`; otherwise the result has `maxRank` factors, each with scale 1 |
| PolyFactorize.OutputVanishes | src/Poly.cpp:310-316 | each output factor, and so their product, vanishes at the root it came from |
| Vectors.Vector.New | inc/Vector.h:32-41 | length 0 throws; otherwise the vector has the requested length |
| Vectors.Vector.FromSeq | inc/Vector.h:49-84 | an empty list throws; otherwise the items are stored in order |
| Vectors.Vector.Get | inc/Vector.h:337-347 | an index past the end throws; otherwise the item at the index |
| Vectors.Vector.Set | inc/Vector.h:356-366 | an index past the end throws and changes nothing; otherwise exactly that slot becomes `val` |
| Vectors.Vector.Add | inc/Vector.h:113-128 | a size mismatch throws; otherwise the elementwise sum; the result is a newly allocated object |
| Vectors.Vector.Subtract | inc/Vector.h:136-151 | a size mismatch throws; otherwise the elementwise difference; the result is a newly allocated object |
| Vectors.Vector.DotProduct | inc/Vector.h:159-173 | a size mismatch throws; otherwise `sum a[i] b[i]` |
| Vectors.Vector.MulScalar | inc/Vector.h:202-212 | every item multiplied by the number, the length kept; the result is a newly allocated object |
| Vectors.Vector.DivScalar | inc/Vector.h:220-230 | every item divided by a nonzero number, the length kept; the result is a newly allocated object |
| Vectors.Vector.Equals | inc/Vector.h:238-254 | holds iff the lengths and all items are equal |
| Vectors.Vector.NotEquals | inc/Vector.h:262-265 | the negation of `==` |
| Vectors.Vector.CrossR3 | inc/Vector.h:181-194 | both lengths must be 3; the result is the as-written triple with third component `a0 b1 - a1 b1`; the result is a newly allocated object |
| Vectors.Vector.CrossR3Corrected | inc/Vector.h:181-194 | both lengths must be 3; the result is the cross product; the result is a newly allocated object |
| Vectors.DotSymmetric | inc/Vector.h:159-173 | the dot product is symmetric |
| Vectors.DotMinus | inc/Vector.h:136-173 | `(a - b) . c == a . c - b . c` |
| Vectors.CrossOrthogonal | inc/Vector.h:181-194 | the cross product is perpendicular to both operands |
| Vectors.CrossAntiCommutes | inc/Vector.h:181-194 | swapping the operands negates the cross product |
| Vectors.CrossAsWrittenError | inc/Vector.h:191 | the as-written result is right in its first two components and off by `a1 (b0 - b1)` in the third |
| Vectors.CrossAsWrittenCounterexample | inc/Vector.h:191 | for `(1, 1, 1)` and `(1, 2, 3)` the as-written result `(1, -2, 0)` is not perpendicular to the first operand |
| MatrixSpec.ToGridCell | inc/Matrix.h:714-723 | cell (r, c) is stored at offset `r * cols + c`, inside the storage |
| MatrixSpec.ToGridUpdate | inc/Matrix.h:329-332 | writing the offset of (r, c) changes exactly that cell of the grid |
| MatrixSpec.ToGridInjective | inc/Matrix.h:260-278 | storage of one shape holds the same grid iff it is the same storage |
| MatrixSpec.ToGridQuotient | inc/Matrix.h:210-220 | dividing the storage cell by cell divides every entry of the grid |
| MatrixSpec.TransposeTwice | inc/Matrix.h:465-479 | transposing twice gives back the matrix |
| MatrixSpec.SubMatrixTranspose | inc/Matrix.h:465-517 | removing row r and column c commutes with transposing (which swaps them) |
| MatrixSpec.SubMatrixRow | inc/Matrix.h:488-517 | row a of the sub-matrix is row `a` (or `a + 1` past the removed row) without column `col` |
| MatrixSpec.ProductIdentity | inc/Matrix.h:228-252 | the identity is a unit of `%` on both sides |
| MatrixSpec.ZerosScanProperties | inc/Matrix.h:731-755 | after scanning n rows the best row holds the most zeros, and every earlier row strictly fewer |
| MatrixSpec.WorkingRowIsFirstWithMostZeros | inc/Matrix.h:731-755 | `_find_zeros_row` returns the first row with the most zeros |
| MatrixSpec.SkippingZerosIsExact | inc/Matrix.h:565-573 | skipping the zero entries gives the full cofactor expansion along the row |
| MatrixSpec.DetZeroRow | inc/Matrix.h:547-576 | a matrix with a row of zeros has determinant 0 |
| MatrixSpec.DetIdentity | inc/Matrix.h:547-576 | the identity of any size has determinant 1 |
| MatrixSpec.CofactorTwoByTwo | inc/Matrix.h:538-541 | a cofactor of a 2 x 2 matrix is the signed entry left over |
| MatrixSpec.AdjugateTwoByTwo | inc/Matrix.h:582-595 | the adjoint of a 2 x 2 matrix swaps the diagonal and negates the other two entries |
| MatrixSpec.InverseGridTwoByTwo | inc/Matrix.h:601-610 | the 2 x 2 inverse, entry by entry: the adjoint over `a00 a11 - a10 a01` |
| MatrixSpec.InverseTwoByTwo | inc/Matrix.h:601-610 | a 2 x 2 matrix times its computed inverse is the identity |
| Matrices.Matrix.New | inc/Matrix.h:39-50 | a dimension below 1 throws; otherwise a matrix of those dimensions |
| Matrices.Matrix.FromRows | inc/Matrix.h:58-94 | an empty list, an empty row or a ragged list throws; otherwise the grid is the list of rows |
| Matrices.Matrix.CheckBounds | inc/Matrix.h:764-768 | a coordinate is in bounds iff its column is below `cols` and its row-major offset below `rows * cols` |
| Matrices.Matrix.TransCoord | inc/Matrix.h:714-723 | out-of-bounds coordinates throw; otherwise the offset `row * cols + col`, below `rows * cols` |
| Matrices.Matrix.Get | inc/Matrix.h:318-321 | out-of-bounds coordinates throw; otherwise the grid entry |
| Matrices.Matrix.Set | inc/Matrix.h:329-332 | out-of-bounds coordinates throw and change nothing; otherwise exactly that entry becomes `val` |
| Matrices.Matrix.SetRow | inc/Matrix.h:339-350 | a wrong length or row throws and changes nothing; otherwise row `row` becomes the data |
| Matrices.Matrix.SetCol | inc/Matrix.h:357-368 | a wrong length or column throws and changes nothing; otherwise column `col` becomes the data |
| Matrices.Matrix.GetRow | inc/Matrix.h:405-415 | an out-of-range row throws; otherwise that row |
| Matrices.Matrix.GetCol | inc/Matrix.h:423-433 | an out-of-range column throws; otherwise that column, top to bottom |
| Matrices.Matrix.GetRowMat | inc/Matrix.h:441-446 | that row as a 1 x cols matrix; the result is a newly allocated object |
| Matrices.Matrix.GetColMat | inc/Matrix.h:454-459 | that column as a rows x 1 matrix; the result is a newly allocated object |
| Matrices.Matrix.Add | inc/Matrix.h:139-155 | different dimensions throw; otherwise the storage summed cell by cell; the result is a newly allocated object |
| Matrices.Matrix.Subtract | inc/Matrix.h:163-179 | different dimensions throw; otherwise the cellwise difference; the result is a newly allocated object |
| Matrices.Matrix.MulElementwise | inc/Matrix.h:187-203 | different dimensions throw; otherwise the cellwise product; the result is a newly allocated object |
| Matrices.Matrix.MulScalar | inc/Matrix.h:299-309 | every cell scaled, the dimensions kept; the result is a newly allocated object |
| Matrices.Matrix.DivScalar | inc/Matrix.h:210-220 | every cell divided by a nonzero number, the dimensions kept; the result is a newly allocated object |
| Matrices.Matrix.MatMul | inc/Matrix.h:228-252 | `cols != mat.rows` throws; otherwise a rows x mat.cols matrix with entries `sum_k a[i][k] b[k][j]`; the result is a newly allocated object |
| Matrices.SumOfProducts | inc/Matrix.h:240-246 | the running sum of row i times column j |
| Matrices.Matrix.Equals | inc/Matrix.h:260-278 | holds iff the dimensions and the grids are equal |
| Matrices.Matrix.NotEquals | inc/Matrix.h:286-289 | the negation of `==` |
| Matrices.Matrix.Identity | inc/Matrix.h:674-693 | size 0 throws; otherwise 1 on the diagonal and 0 elsewhere; the result is a newly allocated object |
| Matrices.Matrix.Transpose | inc/Matrix.h:465-479 | a cols x rows matrix with entry (j, i) equal to entry (i, j); the result is a newly allocated object |
| Matrices.Matrix.CreateSubMatrix | inc/Matrix.h:488-517 | a single row or column, or an out-of-range position, throws; otherwise the (rows-1) x (cols-1) matrix without that row and column; the result is a newly allocated object |
| Matrices.Matrix.CopyRowWithout | inc/Matrix.h:501-512 | one pass of the outer loop writes exactly one output row: the source row without the column |
| Matrices.Matrix.FindZerosRow | inc/Matrix.h:731-755 | the row the determinant expands along: the first row with the most zeros |
| Matrices.Matrix.Minor | inc/Matrix.h:526-529 | defined for a square matrix of side at least 2 and an in-range position: the determinant of the sub-matrix |
| Matrices.Matrix.Cofactor | inc/Matrix.h:538-541 | the minor times `(-1)^(i+j)` |
| Matrices.Matrix.Determinant | inc/Matrix.h:547-576 | a non-square matrix throws; otherwise the determinant, the 1 x 1 and 2 x 2 cases direct and larger ones by expansion along the working row |
| Matrices.Matrix.ExpansionTerm | inc/Matrix.h:567-571 | one pass of the expansion loop adds the term of entry (w, j) |
| Matrices.Matrix.CofactorMatrix | inc/Matrix.h:582-593 | unless square of side at least 2 it throws; otherwise the matrix of cofactors; the result is a newly allocated object |
| Matrices.Matrix.CofactorRow | inc/Matrix.h:588-591 | the inner loop of `adjoint` writes exactly row i of cofactors |
| Matrices.Matrix.Adjoint | inc/Matrix.h:582-595 | unless square of side at least 2 (so every 1 x 1 matrix) it throws; otherwise the transposed matrix of cofactors; the result is a newly allocated object |
| Matrices.Matrix.Inverse | inc/Matrix.h:601-610 | succeeds iff square, of side at least 2 and with nonzero determinant; then the adjoint divided by the determinant; the result is a newly allocated object |

## Left out

- The Durand–Kerner numerics are left out: the seed circle (its radius, `polarToCart` and the snapping of small starting values), the constants `MAX_DK_ITERATIONS`, `MIN_DIFF_CONV_TEST` and `SMALLEST_ALLOWED_START_VAL`, and any accuracy or convergence guarantee. `PolyFactorize.Factorize` takes the seeds, the iteration cap and the tolerance as parameters, and the modulus `absolute()` as an abstract function.
- PolyFactorize.Factorize: a zero leading coefficient gives `None` up front. The source would seed with an infinite or NaN radius and return non-numbers.
- Poly.GetValCompressedPoly: `powReal` raises in polar form, so at `x = 0` it yields NaN. The model answers `None` exactly when such a power would be added.
- `absolute`, `argument`, `raiseEComplex`, `powReal` and `powComplex` are left out: they are built on `sqrt`, `atan`, `exp`, `cos`, `sin` and `log`.
- Polar `+`, `-`, `+=`, `-=`, `real()`, `imaginary()`, `double / polar` and the constructor from a `double` are left out: they go through trigonometric conversions.
- ComplexC.Div, ComplexC.DivReal, ComplexC.RealDiv, ComplexC.DivAssign, ComplexC.DivAssignReal, ComplexP.Div, ComplexP.DivReal, ComplexP.DivAssign, ComplexP.DivAssignReal: each is defined only for a nonzero divisor. The infinities and NaN of a zero divisor have no counterpart over the reals.
- Vectors.Vector.DivScalar, Matrices.Matrix.DivScalar: dividing by 0 is reported as `None`, where the source produces infinities or NaN.
- `Vector::magnitude`, `normalize`, `cosineAng` and `scalar_in_direction` and `Matrix::normalize` are left out (square roots), as is `Matrix::reciprocal` (a reciprocal of 0 is an infinity). `Matrix::qr_decompose` has an empty body and returns nothing, so it has no behaviour to model.
- Every `operator<<` printer is left out, as is the diagnostic line that `Matrix::operator==` writes to standard output on a mismatch.
- Memory management is left out: `new`, `delete`, the `memcpy` copy constructors and the assignment operator. Vectors and matrices are objects over a fresh `array<real>`, and results are new objects.
- Matrices.Matrix.New, Vectors.Vector.New: the source leaves the cells of a new matrix or vector unset, so only the dimensions are promised.
- Vectors.Vector.Add: `operator+` as written subscripts the member function `get_data` instead of the array it returns (inc/Vector.h:124), so it does not compile once instantiated. The model gives the elementwise sum it evidently means.
- Matrices.Matrix.CreateSubMatrix: the source throws from the constructor of the smaller matrix, or from the first write outside it. The model checks the same conditions up front and gives the same `invalid_argument`, without the half-filled temporary.
- The determinant's independence from the row it expands along is not proved; `Det` is defined by the expansion along `_find_zeros_row`'s row, exactly as the source computes it.
- MatrixSpec.InverseTwoByTwo: the inverse is proved to be a right inverse only for 2 x 2 matrices, not for every size.
- Matrices.Matrix.Add, Matrices.Matrix.Subtract, Matrices.Matrix.MulElementwise, Matrices.Matrix.MulScalar, Matrices.Matrix.DivScalar: these are stated on the flat storage, as the source computes them. `MatrixSpec.ToGridInjective` and `MatrixSpec.ToGridCell` carry the statement over to the grid.
- src/Complex.cpp, inc/Poly.h, main.cpp and inc/Complex.h are not part of this model. The first two are stale versions of the complex type and the polynomial declarations; the last two are a demo driver and an include aggregator.

## Findings

| source | as written | input that shows it | evidently intended | confidence | as-written member | corrected member |
|---|---|---|---|---|---|---|
| src/Poly.cpp:169-195 | each middle power p sums N products, one cyclic window per pivot | four factors `x + 1`: the x^2 coefficient comes out 4 | the coefficients of the product of the factors, whose x^2 coefficient is 6 (C(4, 2) terms) | not executed | PolyCompress.CompressFactors, PolyCompress.FourFactorsCounterexample | PolyCompress.ExpandFactors, PolyCompress.ExpandEvaluates |
| inc/Vector.h:191 | the third component of `crossR3` is `a0 b1 - a1 b1` | `(1, 1, 1)` and `(1, 2, 3)` give `(1, -2, 0)`, whose dot product with `(1, 1, 1)` is -1 | `a0 b1 - a1 b0`, which makes the result perpendicular to both operands | not executed | Vectors.Vector.CrossR3, Vectors.CrossAsWrittenCounterexample | Vectors.Vector.CrossR3Corrected, Vectors.CrossOrthogonal |
