/** The value types shared by every module (include/MiniDB/Common/Type.h). */
module Common {

  datatype Option<+T> = None | Some(value: T)

  datatype Status =
    | OK
    | NOT_FOUND
    | DUPLICATE_KEY
    | INVALID_SCHEMA
    | INVALID_TYPE
    | TABLE_NOT_FOUND
    | TABLE_ALREADY_EXISTS
    | IO_ERROR
    | PARSE_ERROR
    | OUT_OF_MEMORY
    | UNKNOWN_ERROR
}
