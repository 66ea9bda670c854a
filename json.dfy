/**
 * The values the `/bfhl` handler of index.js receives and returns: parsed
 * JSON, and the response envelope.
 */
module Json {

  datatype Option<+T> = None | Some(value: T)

  /**
   * A parsed JSON value, distinguished as far as the handler looks at it:
   * `Int` is a number for which `Number.isInteger` holds, `NonIntNum` any
   * other number, `Arr` what `Array.isArray` accepts, and `Other` a
   * boolean or an object. `Null` is also what `NaN` becomes when the
   * response is serialised.
   */
  datatype Json = Null | Int(i: int) | NonIntNum | Str(s: string) | Arr(items: seq<Json>) | Other

  /**
   * The response: its HTTP status and the JSON envelope
   * `{ is_success, official_email, data?, error? }`.
   */
  datatype Response = Response(status: int, isSuccess: bool, officialEmail: string,
                               data: Option<Json>, error: Option<string>)
}
