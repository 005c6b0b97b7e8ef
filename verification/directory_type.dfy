/** The fifteen named data directories, in the order the optional header
    stores them, and the conversion from a slot index to a directory kind. */
module DirectoryType {
  import opened Errors

  datatype DataDirectoryType =
    | ExportTable
    | ImportTable
    | ResourceTable
    | ExceptionTable
    | CertificateTable
    | BaseRelocationTable
    | DebugTable
    | Architecture
    | GlobalPtr
    | TlsTable
    | LoadConfigTable
    | BoundImportTable
    | ImportAddressTable
    | DelayImportDescriptor
    | ClrRuntimeHeader

  /** Every kind, in declaration order. */
  const DeclarationOrder: seq<DataDirectoryType> := [
    ExportTable, ImportTable, ResourceTable, ExceptionTable, CertificateTable,
    BaseRelocationTable, DebugTable, Architecture, GlobalPtr, TlsTable,
    LoadConfigTable, BoundImportTable, ImportAddressTable, DelayImportDescriptor,
    ClrRuntimeHeader]

  /** The position of a kind in the declaration. */
  function IndexOf(t: DataDirectoryType): (i: nat)
    ensures i < |DeclarationOrder| && DeclarationOrder[i] == t
  {
    match t
    case ExportTable => 0
    case ImportTable => 1
    case ResourceTable => 2
    case ExceptionTable => 3
    case CertificateTable => 4
    case BaseRelocationTable => 5
    case DebugTable => 6
    case Architecture => 7
    case GlobalPtr => 8
    case TlsTable => 9
    case LoadConfigTable => 10
    case BoundImportTable => 11
    case ImportAddressTable => 12
    case DelayImportDescriptor => 13
    case ClrRuntimeHeader => 14
  }

  /** `TryFrom<usize>`: indices 0 to 14 name a kind in declaration order; every
      other index, the reserved slot 15 included, is rejected. */
  function TryFrom(value: nat): (r: Result<DataDirectoryType>)
    ensures r.Ok? <==> value < 15
    ensures r.Ok? ==> r.value == DeclarationOrder[value] && IndexOf(r.value) == value
    ensures r.Err? ==> r.error == Malformed("Wrong data directory index number")
  {
    match value
    case 0 => Ok(ExportTable)
    case 1 => Ok(ImportTable)
    case 2 => Ok(ResourceTable)
    case 3 => Ok(ExceptionTable)
    case 4 => Ok(CertificateTable)
    case 5 => Ok(BaseRelocationTable)
    case 6 => Ok(DebugTable)
    case 7 => Ok(Architecture)
    case 8 => Ok(GlobalPtr)
    case 9 => Ok(TlsTable)
    case 10 => Ok(LoadConfigTable)
    case 11 => Ok(BoundImportTable)
    case 12 => Ok(ImportAddressTable)
    case 13 => Ok(DelayImportDescriptor)
    case 14 => Ok(ClrRuntimeHeader)
    case _ => Err(Malformed("Wrong data directory index number"))
  }

  /** Every kind is reached from exactly its own index. */
  lemma TryFromIndexOf(t: DataDirectoryType)
    ensures TryFrom(IndexOf(t)) == Ok(t)
    ensures forall i: nat :: TryFrom(i) == Ok(t) ==> i == IndexOf(t)
  {
  }

  /** The declaration order and the index of a kind are inverse. */
  lemma IndexOfDeclarationOrder(i: nat)
    requires i < |DeclarationOrder|
    ensures IndexOf(DeclarationOrder[i]) == i
  {
    assert TryFrom(i).value == DeclarationOrder[i];
  }
}
