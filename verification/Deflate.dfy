/** Deflating as the tools use it: a library function and one that undoes it. */
module Deflate {
  import opened Common

  type Packer = seq<byte> -> seq<byte>
  type Unpacker = seq<byte> -> Option<seq<byte>>

  ghost predicate Undoes(inflate: Unpacker, deflate: Packer) {
    forall data :: inflate(deflate(data)) == Some(data)
  }
}
