/** Option and Result, and the ways the program can fail. */
module Wrappers {

  datatype Option<+T> = None | Some(value: T)

  /**
   * Every failure the program can run into. In the program each of these is an
   * uncaught Python exception that ends the process; here they are values.
   */
  datatype Error =
    | FieldMissing(tag: string)    // the cursor field `X=`/`Y=` is not in the pointer output
    | FieldEmpty(tag: string)      // the field is there but holds no digits: int('') fails
    | IndentedBeforeHeader         // an indented display line comes before any display header
    | NoEdidMarker                 // the display under the cursor has no `EDID:` line
    | EdidUnterminated             // no line after the EDID hex dump ends it
    | NoMonitorAtCursor            // no connected display contains the cursor

  datatype Result<+T> = Ok(value: T) | Err(error: Error)
}
