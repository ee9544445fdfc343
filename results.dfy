/** The exceptions the calculator engine raises, and the invalid-input outcome
    its console wrappers report instead of a result. Thrown exceptions become
    the `Err` variant of `Result`. */
module Results {

  datatype Error =
    | FormatError         // BigInteger.Parse / int.Parse: the text is not an integer
    | OverflowError       // int.Parse: the integer lies outside the 32-bit range
    | DivideByZero        // a divisor whose magnitude is zero
    | ArgumentOutOfRange  // BigInteger.Pow with a negative exponent
    | EmptyStack          // Stack.Pop on an empty stack
    | NegativeArgument    // BigIntSquareRoot of a negative number
    | InvalidInput        // a console wrapper's TryParse or range check failed

  datatype Result<T> = Ok(value: T) | Err(error: Error)
}
