# houzi-game-engine: matrix algebra and N-dimensional images in Dafny

This project models two components of the houzi game engine and proves properties of the model.

- **`hou::matrix<T, Rows, Cols>`** is a fixed-size matrix. Its `Rows * Cols` elements are stored row by row in one flat array.
  - Modules `Matrices`, `Laplace` and `Determinants` give the value-level operations:
    - element access, checked and unchecked;
    - element-wise `+`, `-` and negation;
    - scalar `*` and `/`;
    - the row-column product;
    - `transpose` and `reduce`;
    - `det`, `trace`, `adjugate` and `inverse`;
    - `square_norm` and `normalized`;
    - `cross_matrix`, `cross`, `outer_product` and `dot`;
    - `==`, `!=` and `close`;
    - the `zero`, `filled`, `identity`, `diagonal` and initializer-list constructors.
  - Module `MatrixObjects` models the in-place members as a class `MatrixObject` that owns its element array: `set`, `fill`, `+=`, `-=`, `*=`, `/=`, `adjugate()`, `invert()` and `normalize()`. It also holds the negation loop and `check_matching_sign`. Each method is specified by the value-level operation it performs on the old value.
  - The determinant follows the header's four `det` overloads (sizes 1, 2, 3 and above 3). Their bodies are not part of this model, so it uses the standard closed forms for sizes 1, 2 and 3 and first-row cofactor expansion above 3 (see Left out). Module `Laplace` proves these facts about that expansion:
    - exchanging two rows negates it;
    - two equal rows make it vanish;
    - it can be expanded along any row;
    - expanding one row against the cofactors of another gives zero.
  - From these facts, `Determinants` proves `m * adjugate(m) = det(m) * identity` and `m * inverse(m) = identity`.
  - Scalars are Dafny `real`, which is exact arithmetic.
  - Module `MatrixExamples` derives the values the unit tests expect, among them `det` of the 4 x 4 test matrix = 8686.
- **`hou::Image<dim, fmt>`** is an N-dimensional image: a size vector and a flat pixel buffer, with the first coordinate varying fastest.
  - Module `ImageLayout` gives the pixel count and the linear index of a pixel. It proves the round trip between index and coordinates, and that padding a size with 1s keeps the layout.
  - Module `SubImages` defines what `getSubImage` reads and what `setSubImage` writes on flat pixel sequences. It proves that writing and then reading back the same region gives the sub-image, and that pixels outside the region are unchanged.
  - Module `Images` holds the class `Image<P>`, with the pixel type `P` kept abstract. Its constructors, `setPixels`, `getPixel`, pixel writes, `clear`, `getSubImage`, `setSubImage`, `computePixelCount`, `computePixelIndex`, `==` and `!=` are methods and functions over an `array<P>`, proved against those definitions.

A precondition violation, which the engine raises as an exception, is the `PreconditionViolation` case of the result type `Checked<T>` (module `Checked`). A method that changes state in place returns `false` instead. Conditions the engine enforces at compile time are `requires` clauses. These are matching shapes, square matrices, and `Rows > 1 && Cols > 1` for `reduce`.

Paths below are relative to the repository root.

## Model

| member | source | states |
|---|---|---|
| Matrices.SizeIsProduct | source/houmth/include/hou/mth/matrix.hpp:101-108 | the number of elements is rows times columns |
| Matrices.OffsetIsRowMajor | source/houmth/include/hou/mth/matrix.hpp:206-217 | element (i, j) sits at flat index i * Cols + j: rows are contiguous |
| Matrices.OffsetInjective | source/houmth/include/hou/mth/matrix.hpp:72-73 | no two coordinates share a flat position |
| Matrices.Unflatten | source/houmth/include/hou/mth/matrix.hpp:72-73 | every flat position is the position of some in-range coordinate pair |
| Matrices.ElementAt | source/houmth/include/hou/mth/matrix.hpp:234-245 | the checked flat read fails exactly when index >= Rows * Cols, and otherwise returns that element |
| Matrices.ElementAtRC | source/houmth/include/hou/mth/matrix.hpp:260-270 | the checked read by coordinates fails exactly when row >= Rows or col >= Cols; otherwise it equals the flat read at row * Cols + col |
| Matrices.WithElement | source/houmth/include/hou/mth/matrix.hpp:220-232 | a write through the flat reference changes that element only, and keeps the shape |
| Matrices.WriteVisibleByCoordinates | source/houmth/include/hou/mth/matrix.hpp:247-282 | a write at flat index row * Cols + col is seen by the read at (row, col) and by no other coordinate read |
| Matrices.Zero | source/houmth/include/hou/mth/matrix.hpp:110-114 | every element of `zero()` is 0 |
| Matrices.Filled | source/houmth/include/hou/mth/matrix.hpp:116-122 | every element of `filled(x)` is x |
| Matrices.Identity | source/houmth/include/hou/mth/matrix.hpp:124-134 | ones on the diagonal, zeros elsewhere |
| Matrices.Diagonal | source/houmth/include/hou/mth/matrix.hpp:136-148 | element (i, i) is v(i) and every off-diagonal element is 0 |
| Matrices.FromList | source/houmth/include/hou/mth/Matrix.hpp:153-170 | the initializer list fails unless it has exactly rows * cols elements, and otherwise gives them in row-major order |
| Matrices.Add | source/houmth/include/hou/mth/matrix.hpp:662-680 | element (i, j) of the sum is the sum of the elements (i, j) |
| Matrices.Sub | source/houmth/include/hou/mth/matrix.hpp:682-700 | element (i, j) of the difference is the difference of the elements (i, j) |
| Matrices.Negated | source/houmth/include/hou/mth/matrix.hpp:702-718 | same shape, every element negated |
| Matrices.Scale | source/houmth/include/hou/mth/matrix.hpp:593-607 | `m * s` multiplies every element by s |
| Matrices.Div | source/houmth/include/hou/mth/matrix.hpp:609-623 | `m / s` divides every element by s |
| Matrices.AddZero | source/houmth/include/hou/mth/matrix.hpp:662-680 | adding the zero matrix changes nothing |
| Matrices.AddCommutes | source/houmth/include/hou/mth/matrix.hpp:662-680 | `a + b == b + a` |
| Matrices.SubAddCancel | source/houmth/include/hou/mth/matrix.hpp:682-700 | `(a + b) - b == a` and `(a - b) + b == a`: subtraction undoes addition and addition undoes subtraction |
| Matrices.SubIsAddNegated | source/houmth/include/hou/mth/matrix.hpp:682-718 | `a - b == a + (-b)` |
| Matrices.NegatedTwice | source/houmth/include/hou/mth/matrix.hpp:702-718 | negation is an involution |
| Matrices.DivScaleCancel | source/houmth/include/hou/mth/matrix.hpp:593-623 | dividing by s is multiplying by 1/s, and multiplying by s undoes it |
| Matrices.Mul | source/houmth/include/hou/mth/matrix.hpp:720-742 | a Rows x Mid times a Mid x Cols matrix is Rows x Cols, with element (i, j) the sum over k of a(i, k) * b(k, j) |
| Matrices.MulIdentity | source/houmth/include/hou/mth/matrix.hpp:720-742 | the identity is neutral on both sides of the product |
| Matrices.MulScaleRight | source/houmth/include/hou/mth/matrix.hpp:720-742 | `a * (b * s) == (a * b) * s` |
| Matrices.Transpose | source/houmth/include/hou/mth/matrix.hpp:834-849 | Cols x Rows, with element (i, j) equal to element (j, i) of m |
| Matrices.TransposeTwice | source/houmth/include/hou/mth/matrix.hpp:834-849 | transposing twice gives the original matrix |
| Matrices.TransposeIdentity | source/houmth/include/hou/mth/matrix.hpp:834-849 | the identity is its own transpose |
| Matrices.TransposeMul | source/houmth/include/hou/mth/matrix.hpp:834-849 | `transpose(a * b) == transpose(b) * transpose(a)` |
| Matrices.Minor | source/houmth/include/hou/mth/matrix.hpp:807-832 | (Rows-1) x (Cols-1), with element (i, j) taken from m after skipping the removed row and column |
| Matrices.Reduce | source/houmth/include/hou/mth/matrix.hpp:807-832 | fails exactly when row >= Rows or col >= Cols; otherwise element (i, j) is m(i or i+1, j or j+1), past the removed row and column |
| Matrices.MinorTranspose | source/houmth/include/hou/mth/matrix.hpp:807-849 | removing row r and column c commutes with transposition |
| Matrices.Trace | source/houmth/include/hou/mth/matrix.hpp:794-805 | the sum of the diagonal; its contracts are TraceAdd, TraceTranspose, TraceIdentity and TraceMulCommutes (`trace(a * b) == trace(b * a)`) |
| Matrices.TraceAdd | source/houmth/include/hou/mth/matrix.hpp:794-805 | the trace is additive |
| Matrices.TraceTranspose | source/houmth/include/hou/mth/matrix.hpp:794-805 | a matrix and its transpose have the same trace |
| Matrices.TraceIdentity | source/houmth/include/hou/mth/matrix.hpp:794-805 | the trace of the n x n identity is n |
| Matrices.TraceMulCommutes | source/houmth/include/hou/mth/matrix.hpp:794-805 | `trace(a * b) == trace(b * a)` |
| Matrices.SumSquaresZero | source/houmth/include/hou/mth/matrix.hpp:903-916 | a sum of squares is non-negative, and zero exactly when every term is zero |
| Matrices.SquareNorm | source/houmth/include/hou/mth/matrix.hpp:903-916 | the sum of the squares of all elements is never negative; SquareNormZero adds that it is 0 exactly for the zero matrix |
| Matrices.SquareNormZero | source/houmth/include/hou/mth/matrix.hpp:903-916 | `square_norm(m) >= 0`, and it is 0 exactly for the zero matrix |
| Matrices.SquareNormDivNorm | source/houmth/include/hou/mth/matrix.hpp:918-948 | m divided by its norm has square norm 1 |
| Matrices.Normalized | source/houmth/include/hou/mth/matrix.hpp:933-948 | fails exactly for the zero matrix; otherwise it is m / norm(m), of square norm 1 |
| Matrices.Equal | source/houmth/include/hou/mth/Matrix.hpp:447-457 | `==` holds exactly when the matrices are equal, that is, equal at every coordinate |
| Matrices.NotEqual | source/houmth/include/hou/mth/Matrix.hpp:459-467 | `!=` is exactly the negation of `==` |
| Matrices.Close | source/houmth/include/hou/mth/Matrix.hpp:469-481 | element-wise closeness within acc; CloseByCoordinates states it coordinate by coordinate, CloseEqual and CloseSymmetricMonotone relate it to equality, symmetry and larger accuracies |
| Matrices.CloseByCoordinates | source/houmth/include/hou/mth/Matrix.hpp:469-481 | `close(a, b, acc)` holds exactly when every pair of elements differs by at most acc |
| Matrices.CloseEqual | source/houmth/include/hou/mth/Matrix.hpp:469-481 | equal matrices are close for any acc >= 0, and close with acc = 0 means equal |
| Matrices.CloseSymmetricMonotone | source/houmth/include/hou/mth/Matrix.hpp:469-481 | closeness is symmetric and survives a larger accuracy |
| Matrices.Vec3 | source/houmth/include/hou/mth/matrix.hpp:183-204 | a 3 x 1 column vector with the given components |
| Matrices.Dot | source/houmth/include/hou/mth/matrix.hpp:1000-1014 | the dot product of two column vectors; DotSelf gives `dot(v, v) == square_norm(v)`, DotCommutes symmetry and DotAsProduct `transpose(a) * b` |
| Matrices.DotCommutes | source/houmth/include/hou/mth/matrix.hpp:1000-1014 | `dot(a, b) == dot(b, a)` |
| Matrices.DotAsProduct | source/houmth/include/hou/mth/matrix.hpp:1000-1014 | `dot(a, b)` is the single element of `transpose(a) * b` |
| Matrices.DotSelf | source/houmth/include/hou/mth/matrix.hpp:1000-1014 | `dot(v, v) == square_norm(v)` |
| Matrices.Cross | source/houmth/include/hou/mth/matrix.hpp:972-984 | the cross product of two 3-vectors is a 3-vector |
| Matrices.CrossMatrix | source/houmth/include/hou/mth/matrix.hpp:950-959 | the cross product matrix of a 3-vector is 3 x 3 |
| Matrices.CrossMatrixProduct | source/houmth/include/hou/mth/matrix.hpp:950-984 | `cross_matrix(a) * b == cross(a, b)` |
| Matrices.CrossBasis | source/houmth/include/hou/mth/matrix.hpp:972-984 | the standard basis vectors map cyclically: `cross(x, y) == z`, `cross(y, z) == x`, `cross(z, x) == y` |
| Matrices.CrossAnticommutes | source/houmth/include/hou/mth/matrix.hpp:972-984 | `cross(a, b) == -cross(b, a)` |
| Matrices.CrossOrthogonal | source/houmth/include/hou/mth/matrix.hpp:972-984 | the cross product is orthogonal to both operands |
| Matrices.OuterProduct | source/houmth/include/hou/mth/matrix.hpp:986-998 | element (i, j) is a(i) * b(j) |
| Matrices.OuterProductIsProduct | source/houmth/include/hou/mth/matrix.hpp:986-998 | `outer_product(a, b) == a * transpose(b)` |
| Matrices.OuterProductTrace | source/houmth/include/hou/mth/matrix.hpp:986-1014 | `trace(outer_product(a, b)) == dot(a, b)` |
| Laplace.ExpandCongruent | source/houmth/include/hou/mth/matrix.hpp:744-792 | the expansion depends only on the n x n entries |
| Laplace.Expand2 | source/houmth/include/hou/mth/matrix.hpp:757-766 | the expansion of a 2 x 2 array is ad - bc |
| Laplace.Expand3 | source/houmth/include/hou/mth/matrix.hpp:768-777 | the expansion of a 3 x 3 array is the rule of the first row with 2 x 2 minors |
| Laplace.SwapAdjacent | source/houmth/include/hou/mth/matrix.hpp:779-792 | exchanging two adjacent rows negates the determinant |
| Laplace.EqualRows | source/houmth/include/hou/mth/matrix.hpp:779-792 | two equal rows make the determinant zero |
| Laplace.RowExpansion | source/houmth/include/hou/mth/matrix.hpp:779-792 | the determinant can be expanded along any row |
| Laplace.CrossExpansion | source/houmth/include/hou/mth/matrix.hpp:779-792 | row i against the cofactors of row k gives the determinant if i == k and 0 otherwise |
| Determinants.Det | source/houmth/include/hou/mth/matrix.hpp:744-792 | the four overloads (sizes 1, 2, 3 and above 3); DetIsExpansion proves all of them equal `Laplace.Expand`, which Laplace proves expands along any row and vanishes on equal rows |
| Determinants.DetIsExpansion | source/houmth/include/hou/mth/matrix.hpp:744-792 | the closed forms for sizes 1, 2 and 3 agree with the general expansion |
| Determinants.CofactorIsCof | source/houmth/include/hou/mth/matrix.hpp:873-886 | a cofactor is the signed determinant of the reduced matrix |
| Determinants.Adjugate | source/houmth/include/hou/mth/matrix.hpp:851-886 | the adjugate has the shape of m, and the 1 x 1 adjugate is the identity whatever the element (AdjugateIsCofactors covers sizes >= 2) |
| Determinants.Cofactor2 | source/houmth/include/hou/mth/matrix.hpp:862-871 | the cofactors of a 2 x 2 matrix are its opposite elements, signed |
| Determinants.Adjugate2Element | source/houmth/include/hou/mth/matrix.hpp:862-871 | the 2 x 2 closed form is the transposed matrix of cofactors |
| Determinants.AdjugateIsCofactors | source/houmth/include/hou/mth/matrix.hpp:862-886 | for sizes above 1, element (i, j) of the adjugate is the cofactor (j, i) |
| Determinants.MulAdjugateElement | source/houmth/include/hou/mth/matrix.hpp:851-886 | element (i, k) of m * adjugate(m) is det(m) if i == k and 0 otherwise |
| Determinants.MulAdjugate | source/houmth/include/hou/mth/matrix.hpp:851-886 | `m * adjugate(m) == det(m) * identity` |
| Determinants.Inverse | source/houmth/include/hou/mth/matrix.hpp:888-901 | `inverse` fails exactly when det(m) == 0 and otherwise has the shape of m |
| Determinants.InverseIsInverse | source/houmth/include/hou/mth/matrix.hpp:888-901 | a successful inverse satisfies `m * inverse(m) == identity` |
| MatrixObjects.MatrixObject.constructor | source/houmth/include/hou/mth/matrix.hpp:164-167 | the default constructor holds the zero matrix |
| MatrixObjects.MatrixObject.Copy | source/houmth/include/hou/mth/matrix.hpp:593-607 | the by-value copy that the free operators work on holds the same matrix |
| MatrixObjects.MatrixObject.At | source/houmth/include/hou/mth/matrix.hpp:234-245 | the array read agrees with `ElementAt` of the held matrix, failure included |
| MatrixObjects.MatrixObject.AtRC | source/houmth/include/hou/mth/matrix.hpp:260-270 | the array read at row * Cols + col agrees with `ElementAtRC`, failure included |
| MatrixObjects.MatrixObject.SetAt | source/houmth/include/hou/mth/matrix.hpp:247-258 | fails exactly when index >= Rows * Cols and then changes nothing; otherwise it writes that element only |
| MatrixObjects.MatrixObject.SetAtRC | source/houmth/include/hou/mth/matrix.hpp:272-282 | fails exactly for a bad row or column and then changes nothing; otherwise it writes flat element row * Cols + col only |
| MatrixObjects.MatrixObject.Set | source/houmth/include/hou/mth/matrix.hpp:500-511 | the elements become the given ones, in row-major order |
| MatrixObjects.MatrixObject.Fill | source/houmth/include/hou/mth/matrix.hpp:513-517 | the value becomes `filled(x)` |
| MatrixObjects.MatrixObject.AddAssign | source/houmth/include/hou/mth/matrix.hpp:519-527 | `+=` leaves the old value plus rhs, the same as binary `+` |
| MatrixObjects.MatrixObject.SubAssign | source/houmth/include/hou/mth/matrix.hpp:529-537 | `-=` leaves the old value minus rhs, the same as binary `-` |
| MatrixObjects.MatrixObject.MulAssign | source/houmth/include/hou/mth/matrix.hpp:539-547 | `*=` leaves the old value times s, the same as `m * s` and `s * m` |
| MatrixObjects.MatrixObject.DivAssign | source/houmth/include/hou/mth/matrix.hpp:549-557 | `/=` leaves the old value divided by s, the same as `m / s` |
| MatrixObjects.MatrixObject.AdjugateInPlace | source/houmth/include/hou/mth/matrix.hpp:559-569 | `adjugate()` leaves the same value as the free `adjugate` |
| MatrixObjects.MatrixObject.Invert | source/houmth/include/hou/mth/matrix.hpp:571-583 | fails exactly when det == 0 and then changes nothing; otherwise it leaves the free `inverse` of the old value |
| MatrixObjects.MatrixObject.Normalize | source/houmth/include/hou/mth/matrix.hpp:585-591 | fails exactly on zero norm and then changes nothing; otherwise it leaves `normalized` of the old value |
| MatrixObjects.Opposite | source/houmth/include/hou/mth/Matrix.hpp:389-404 | the element-by-element negation loop returns `Negated(m)` |
| MatrixObjects.CheckMatchingSign | source/houmth/include/hou/mth/matrix.hpp:1089-1128 | true exactly when every pair of elements is both negative or both not; when false, it names a pair whose signs differ |
| MatrixExamples.MultiplicationExample | source/houmth/test/hou/mth/test_matrix.cpp:375-383 | {0, 1, 2, 3, -4, 5} * {-4, 7} = {7, 13, 51} |
| MatrixExamples.DeterminantExamples | source/houmth/test/hou/mth/test_matrix.cpp:679-692 | the 2 x 2 and 3 x 3 determinants are -6, -11, 381 and 66 |
| MatrixExamples.Determinant4Example | source/houmth/test/hou/mth/test_matrix.cpp:695-706 | the 4 x 4 integer determinant is 8686 |
| MatrixExamples.Adjugate1Example | source/houmth/test/hou/mth/test_matrix.cpp:571-577 | adjugate {2} = the 1 x 1 identity |
| MatrixExamples.AdjugateExample | source/houmth/test/hou/mth/test_matrix.cpp:581-588 | adjugate {1, 2, 3, 4} = {4, -2, -3, 1} |
| MatrixExamples.Adjugate3Example | source/houmth/test/hou/mth/test_matrix.cpp:592-609 | adjugate {1, 2, 3, 4, 5, 6, 7, 8, 9} = {-3, 6, -3, 6, -12, 6, -3, 6, -3}, element by element from the cofactors |
| MatrixExamples.Inverse3Example | source/houmth/test/hou/mth/test_matrix.cpp:639-658 | inverse {1, 2, 3, 3, 2, 1, 1, 3, 2} = {1/12, 5/12, -1/3, -5/12, -1/12, 2/3, 7/12, -1/12, -1/3} |
| MatrixExamples.InverseExamples | source/houmth/test/hou/mth/test_matrix.cpp:626-667 | inverse {1, 2, 3, 4} = {-2, 1, 1.5, -0.5}, and the zero matrix has no inverse |
| MatrixExamples.ReduceExample | source/houmth/test/hou/mth/test_matrix.cpp:477-557 | reduce({1..9}, 1, 1) = {1, 3, 7, 9} |
| MatrixExamples.TraceExample | source/houmth/test/hou/mth/test_matrix.cpp:734-744 | the trace of the 3 x 3 test matrix is 8 |
| MatrixExamples.NormExample | source/houmth/test/hou/mth/test_matrix.cpp:761-784 | square_norm {3, 4, 12} = 169, and normalizing divides by 13 |
| ImageLayout.IndexBound | housys/src/hou/sys/Image.cpp:551-567 | an in-bounds pixel's index is below the pixel count |
| ImageLayout.Coordinates | source/housys/test/hou/sys/TestImage.cpp:204-220 | the coordinates of an index below the pixel count are in bounds |
| ImageLayout.IndexOfCoordinates | source/housys/test/hou/sys/TestImage.cpp:187-220 | index to coordinates to index is the identity |
| ImageLayout.CoordinatesOfIndex | housys/src/hou/sys/Image.cpp:551-567 | coordinates to index to coordinates is the identity, so the index is a bijection onto 0 .. count-1 |
| ImageLayout.IndexInjective | housys/src/hou/sys/Image.cpp:551-567 | distinct in-bounds pixels have distinct indices |
| ImageLayout.Plus | housys/src/hou/sys/Image.cpp:127-131 | the component-wise sum `offset + size` |
| ImageLayout.Padded | housys/src/hou/sys/Image.cpp:114-124 | a vector of d components: those of v, then value |
| ImageLayout.PaddedCount | housys/src/hou/sys/Image.cpp:456-466 | padding a size with 1s keeps the pixel count |
| ImageLayout.PaddedIndex | housys/src/hou/sys/Image.cpp:456-466 | padding coordinates with 0s and the size with 1s keeps the pixel index |
| ImageLayout.PaddedInBounds | housys/src/hou/sys/Image.cpp:456-466 | padded coordinates are in bounds of the padded size exactly when the originals are in bounds |
| SubImages.ShiftedIndex | housys/src/hou/sys/Image.cpp:127-180 | pixel k of a fitting sub-image lands inside the image |
| SubImages.Local | housys/src/hou/sys/Image.cpp:185-232 | a pixel of the region is offset plus in-bounds coordinates of the sub-image |
| SubImages.SubIndex | housys/src/hou/sys/Image.cpp:185-232 | the sub-image index of a region pixel is below the sub-image's pixel count |
| SubImages.SubPixels | housys/src/hou/sys/Image.cpp:127-180 | the extracted sub-image has PixelCount(subSize) pixels |
| SubImages.PastedNothing | housys/src/hou/sys/Image.cpp:185-232 | before the first write the image is unchanged |
| SubImages.ShiftedInRegion | housys/src/hou/sys/Image.cpp:185-232 | sub-image pixel j lands in the region, at sub-image index j |
| SubImages.RegionShifted | housys/src/hou/sys/Image.cpp:185-232 | every pixel of the region is the landing place of its sub-image index |
| SubImages.PasteStep | housys/src/hou/sys/Image.cpp:185-232 | writing sub-image pixel j extends the written prefix by one pixel |
| SubImages.SubPixelsOfPasted | housys/src/hou/sys/Image.cpp:185-232 | reading back the region just written gives the sub-image |
| SubImages.PastedSubPixels | housys/src/hou/sys/Image.cpp:127-232 | writing back the sub-image just read changes nothing |
| SubImages.PastedAtCoordinates | housys/src/hou/sys/Image.cpp:185-232 | after the write, a region pixel holds the matching sub-image pixel and every other pixel is unchanged |
| SubImages.SubPixelsAtCoordinates | housys/src/hou/sys/Image.cpp:127-180 | pixel p of the extracted sub-image is pixel offset + p of the image |
| Images.ElementWiseLowerOrEqual | housys/src/hou/sys/Image.cpp:97-109 | true exactly when every component of lhs is at most the matching component of rhs |
| Images.PadVector | housys/src/hou/sys/Image.cpp:114-124 | the loop yields the padded vector |
| Images.ZeroSize | housys/src/hou/sys/Image.cpp:413-417 | the default size vector has dim zero components |
| Images.ZeroSizeCount | housys/src/hou/sys/Image.cpp:413-417 | a zero size has no pixels |
| Images.Image.Empty | housys/src/hou/sys/Image.cpp:413-417 | the default image has zero size and no pixels |
| Images.Image.constructor | housys/src/hou/sys/Image.cpp:421-433 | PixelCount(size) pixels, all equal to the given pixel |
| Images.Image.FromSeq | housys/src/hou/sys/Image.cpp:437-444 | an image whose pixels are the given ones, in layout order |
| Images.Image.FromPixels | housys/src/hou/sys/Image.cpp:437-444 | fails exactly when the number of pixels differs from PixelCount(size); otherwise the pixels are the given ones |
| Images.Image.Raised | housys/src/hou/sys/Image.cpp:456-466 | the size padded with 1s, and the pixels copied in order |
| Images.Image.ComputePixelCount | housys/src/hou/sys/Image.cpp:538-547 | the loop yields the product of the size components |
| Images.Image.ComputePixelIndex | housys/src/hou/sys/Image.cpp:551-567 | fails exactly when a coordinate is out of bounds; otherwise it yields the first-coordinate-fastest index, which lies within the buffer |
| Images.Image.GetPixel | housys/src/hou/sys/Image.cpp:496-511 | fails exactly for out-of-bounds coordinates; otherwise it returns the pixel at their index |
| Images.Image.SetPixel | housys/src/hou/sys/Image.cpp:496-502 | a write through `getPixel` fails exactly for out-of-bounds coordinates and then changes nothing; otherwise only the pixel at their index changes |
| Images.Image.SetPixels | housys/src/hou/sys/Image.cpp:487-492 | fails exactly on a wrong pixel count and then changes nothing; otherwise the pixels become the given ones |
| Images.Image.Clear | housys/src/hou/sys/Image.cpp:514-518 | every pixel becomes the given pixel |
| Images.Image.GetSubImage | housys/src/hou/sys/Image.cpp:127-180 | fails exactly when offset + size exceeds the image size; otherwise it gives a new image of that size holding `SubPixels` |
| Images.Image.SetSubImage | housys/src/hou/sys/Image.cpp:185-232 | fails exactly when offset + sub.size exceeds the image size and then changes nothing; otherwise the buffer becomes `Pasted` |
| Images.Image.Equal | housys/src/hou/sys/Image.cpp:571-575 | `==` holds exactly when the sizes are equal and the images agree at every in-bounds coordinate |
| Images.Image.NotEqual | housys/src/hou/sys/Image.cpp:579-583 | `!=` is exactly the negation of `==` |
| Images.SameByCoordinates | housys/src/hou/sys/Image.cpp:571-575 | two buffers of one layout are equal exactly when they agree at every in-bounds coordinate |
| Images.SetPixelThenGet | housys/src/hou/sys/Image.cpp:496-511 | after a write at c, the read at c gives the new pixel and every other in-bounds read is unchanged |
| Images.RaisedPixel | housys/src/hou/sys/Image.cpp:456-466 | a raised image holds each original pixel at the original coordinates padded with 0s |

## Left out

- Element types and rounding. Scalars are Dafny `real`, so IEEE rounding, the default epsilon of `close` and integer truncating division are not modelled. The float tests are read with exact values.
- `norm`: Dafny reals have no square root. `Normalized` and `MatrixObjects.MatrixObject.Normalize` take the norm as an argument, a non-negative number whose square is `square_norm(m)`.
- Matrices.Div: requires a non-zero divisor. Dividing by zero is undefined for the engine's integer matrices and gives infinities or NaN for floats, and the model has neither.
- Implementation bodies. Those of `det`, `adjugate`, `trace`, `cross` and the other free functions are not part of this model. The model uses the standard definitions: first-row cofactor expansion with closed forms for 1, 2 and 3, the transposed cofactor matrix with closed forms for 1 and 2, and the usual 3-vector cross product.
- The 2-vector `cross(v)` is not modelled, because its sign convention is not part of this model.
- The scalar-converting constructor, the `x()`/`y()`/`z()`/`w()` accessors, the iterators and `data()` are left out. They give access to the same array and hold no logic.
- `operator<<` for matrices and images is formatting only.
- Shapes. Matrix sizes are runtime fields, not template parameters. Matrices.Add and the other shape-matching operations require matching shapes where the engine checks them at compile time. Sizes of zero are allowed, which the engine's `static_assert` rules out.
- Determinants.InverseIsInverse: proves that the inverse is a right inverse. The left-inverse identity `inverse(m) * m == identity` needs column expansion, which is not proved.
- Image file I/O (bmp, png and jpg loading and saving through SOIL, temporary files) is foreign-library and filesystem code.
- Pixel format conversion between R, RG, RGB and RGBA lives in the pixel type. `Images.Image.Raised` keeps the pixel type, and the pixel type is a type parameter.
- Images.Image.constructor: the size-only constructor `Image(size)` is this constructor with the default pixel passed in, since an abstract pixel type has no default value here.
- Images.Image.Empty: requires dim >= 1, as every engine image has 1, 2 or 3 dimensions.
- Unsigned wrap-around is not modelled. Coordinates and sizes are `nat`, so `offset + size` cannot wrap as the engine's `uint` sum can, and pixel counts cannot overflow `size_t`.
- Images.Image.GetSubImage: the engine copies with one nested loop per dimension, the first coordinate outermost. The model uses one loop over the sub-image's linear index, so the order of the copies differs but each pixel lands in the same place.
- Images.Image.SetSubImage: the same one-loop form as `GetSubImage`. It also requires the sub-image to have its own buffer. The engine accepts the image itself as the sub-image; the fit check then forces a zero offset and the copy changes nothing, and the model excludes that case.
- The byte-span constructor reinterprets raw bytes as pixels and is left out.
- The older duplicate header `houmth/include/hou/mth/Matrix.hpp` is not modelled separately.
