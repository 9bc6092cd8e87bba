/** File types as src/types.rs reads them from a mode, and the validator's rule that a node's
    data agrees with its mode. */
module Kinds {
  import opened Chunking
  import opened Storage

  datatype FileKind =
    | RegularFile | DirectoryFile | SymbolicLink | BlockDevice | CharacterDevice | Fifo | Socket

  /** `FileType::mode_bits`. */
  function ModeBits(kind: FileKind): bv32 {
    match kind
    case RegularFile => 0x8000
    case DirectoryFile => 0x4000
    case SymbolicLink => 0xA000
    case BlockDevice => 0x6000
    case CharacterDevice => 0x2000
    case Fifo => 0x1000
    case Socket => 0xC000
  }

  /** `FileType::from_mode`: unknown type bits count as a regular file. */
  function FromMode(mode: bv32): FileKind {
    var bits := mode & 0xF000;
    if bits == 0x4000 then DirectoryFile
    else if bits == 0xA000 then SymbolicLink
    else if bits == 0x6000 then BlockDevice
    else if bits == 0x2000 then CharacterDevice
    else if bits == 0x1000 then Fifo
    else if bits == 0xC000 then Socket
    else RegularFile
  }

  /** Type bits read back as the type they were made from, whatever the permissions. */
  lemma FromModeBits(kind: FileKind, permissions: bv32)
    requires permissions & 0xF000 == 0
    ensures FromMode(ModeBits(kind) | permissions) == kind
  {
    assert (ModeBits(kind) | permissions) & 0xF000 == ModeBits(kind) & 0xF000;
  }

  /** The variant of data a file type calls for. */
  predicate Holds(data: NodeData, kind: FileKind) {
    match kind
    case RegularFile => data.File?
    case DirectoryFile => data.Directory?
    case SymbolicLink => data.Symlink?
    case _ => data.Special?
  }

  /** A node is accepted exactly when its data is what its file type calls for and, for a file,
      the type bits say so outright and the layout is a valid one for the size. */
  lemma NodeKindIff(node: NodeMetadata)
    ensures NodeKindValid(node) <==>
      && Holds(node.data, FromMode(node.stats.mode))
      && (node.data.File? ==>
            && node.stats.mode & 0xF000 == 0x8000
            && FromConfig(node.data.layout.chunker).Ok?
            && ExtentsValid(node.data.layout.extents, node.stats.size))
  {
  }
}
