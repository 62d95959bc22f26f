/**
 * The exceptions the converter raises or catches, as values. `ImageConversionException`
 * is the one exception `convert_image` lets escape; it carries what was raised inside.
 */
module Exceptions {

  /** What was raised inside `convert_image` before it was wrapped. */
  datatype Cause =
    | IndexError                  // File.__parse__ indexed a separator the path does not have
    | FileNotFound(path: string)  // the source is not an existing regular file
    | FileExists(path: string)    // the target exists and overwriting is not allowed
    | LibraryFailure              // the imaging library raised while opening, resizing or saving

  /** `ImageConversionException`, wrapping the cause it was raised from. */
  datatype ImageConversionException = ImageConversionException(cause: Cause)
}
