/** The configuration enumerations of src/utils/types.rs. */
module Types {

  /** The loss a polynomial regression trains under (`TypeRegression`). */
  datatype Loss = MAE | MSE | HUBER

  /** The factorization an RBF fit solves its normal equations with (`TypeFactoration`). */
  datatype Factorization = SVD | QR | LU
}
