/** Failure-carrying results shared by every module of the model. */
module Wrappers {

  /** The ways the modelled operations fail: the exceptions the C++ code
      throws and the non-zero status codes of the C code. */
  datatype Error =
    | OutOfRange          // std::out_of_range("Pixel out of bounds")
    | CannotOpen          // a stream or FILE* that could not be opened
    | NotBmp              // signature other than 'BM'
    | UnsupportedHeader   // header_size check failed
    | UnsupportedDepth    // planes or bits_per_pixel check failed
    | Compressed          // compression other than BI_RGB
    | UnsupportedFormat   // the combined format check of BmpIO::load
    | TruncatedHeader     // EOF while reading a header
    | TruncatedPixels     // EOF while reading pixel data
    | LengthError         // std::vector cannot hold the requested size
    | DivideByZero        // complex division by zero

  datatype Result<+T> = Ok(value: T) | Err(error: Error)

  datatype Outcome = Pass | Fail(error: Error)

  datatype Option<+T> = None | Some(value: T)
}
