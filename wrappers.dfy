/** Success/failure carriers shared by every module of the engine. */
module Wrappers {

  datatype Option<+T> = None | Some(value: T)

  /** The ways an engine operation reports failure (the source raises ValueError for each). */
  datatype Error =
    | NoInverseExists                    // mod_inverse: gcd(e, phi_n) != 1
    | MessageTooLarge(unit: int)         // encrypt: a unit is not below n
    | UserNotFound(username: string)     // sign/verify: no keys registered
    | NotACharacter(unit: int)           // decrypt_message: chr() of a value outside the code points

  datatype Result<+T> = Success(value: T) | Failure(error: Error)
}
