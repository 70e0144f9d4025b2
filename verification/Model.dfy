/** Domain values that several parts of the model share. Identifiers are UUIDs in
    the program: 128-bit numbers with the order of their bytes. */
module Model {
  const UUID_LIMIT: nat := 0x1_0000_0000_0000_0000_0000_0000_0000_0000

  type Uuid = n: nat | n < UUID_LIMIT witness 0

  type AtomId = Uuid

  datatype ChangeAtom = ChangeAtom(id: AtomId, path: string, startLine: nat, endLine: nat)

  function AtomIds(atoms: seq<ChangeAtom>): set<AtomId> {
    set a | a in atoms :: a.id
  }

  datatype FileChange = FileChange(path: string, oldContent: string, newContent: string)
}
