/** What all parts of the ext4 driver share: the answers of its routines and the two dot names. */
module Ext4Common {
  import opened Bytes

  datatype Status = Ok | InvalidArgument | NotSupported | NoMemory | NotFound | AlreadyExists

  const DOT: seq<Byte> := [46]
  const DOTDOT: seq<Byte> := [46, 46]
}
