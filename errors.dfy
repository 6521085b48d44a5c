/** The error kinds that the interpolation engine, the dual raw/parsed value
    and the payload codecs report, and the usual Option and Result wrappers. */
module Errors {

  datatype Option<+T> = None | Some(value: T)

  datatype Error =
    /** A `$` that starts no valid reference; carries the whole input. */
    | InterpolateInvalidSyntax(input: string)
    /** A genuine reference met where substitution is not allowed; carries the whole input. */
    | InterpolationDisabled(input: string)
    /** A reference to an unset variable that has no default. */
    | InterpolateUndefinedVariable(name: string)
    /** Text that does not parse as the wanted payload type. */
    | InvalidValue(wanted: string, input: string)

  datatype Result<+T> = Ok(value: T) | Err(error: Error)
}
