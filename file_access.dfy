/**
 * `FileAccessMode`: the access flags of a file check, combined with `|` and
 * queried with `&`. `exist` is the empty mask; `read`, `write` and `exec` are
 * one bit each, as in the POSIX `access` call (F_OK = 0, X_OK = 1, W_OK = 2,
 * R_OK = 4).
 */
module FileAccess {

  /** A combination of the three flags. */
  type FileAccessMode = m: bv8 | m < 8

  const Exist: FileAccessMode := 0
  const Exec: FileAccessMode := 1
  const Write: FileAccessMode := 2
  const Read: FileAccessMode := 4
  const ReadWrite: FileAccessMode := 6
  const ReadExec: FileAccessMode := 5
  const WriteExec: FileAccessMode := 3
  const ReadWriteExec: FileAccessMode := 7

  /** Every flag that `f` asks for is granted by `m`. */
  predicate Grants(m: FileAccessMode, f: FileAccessMode)
  {
    m & f == f
  }

  /** `a | b`: the mode granting what either operand grants. */
  function Or(a: FileAccessMode, b: FileAccessMode): (r: FileAccessMode)
    ensures Grants(r, a) && Grants(r, b)
    ensures forall m: FileAccessMode :: Grants(m, a) && Grants(m, b) ==> Grants(m, r)
  {
    a | b
  }

  /** `a & b`: the mode granting what both operands grant. */
  function And(a: FileAccessMode, b: FileAccessMode): (r: FileAccessMode)
    ensures Grants(a, r) && Grants(b, r)
    ensures forall m: FileAccessMode :: Grants(a, m) && Grants(b, m) ==> Grants(r, m)
  {
    a & b
  }

  /** Masking with a flag gives the flag back exactly when the mode grants it. */
  lemma AndFlag(m: FileAccessMode, f: FileAccessMode)
    ensures And(m, f) == f <==> Grants(m, f)
  {
  }

  /** Every mode grants `exist`, so masking any mode with `exist` yields `exist`. */
  lemma AndExist(m: FileAccessMode)
    ensures And(m, Exist) == Exist
  {
  }

  /** A combined mode grants a single flag exactly when one of its parts does. */
  lemma OrGrantsFlag(a: FileAccessMode, b: FileAccessMode, f: FileAccessMode)
    requires f == Read || f == Write || f == Exec
    ensures Grants(Or(a, b), f) <==> Grants(a, f) || Grants(b, f)
  {
  }

  /** The combinations and masks the permission test checks. */
  lemma CombinedFilePermissions()
    ensures Or(Read, Write) == ReadWrite && Or(Read, Exec) == ReadExec
    ensures Or(Or(Read, Write), Exec) == ReadWriteExec && Or(Write, Exec) == WriteExec
    ensures forall m: FileAccessMode :: And(m, Exist) == Exist
    ensures And(Read, Read) == Read && And(Write, Read) != Read && And(Exec, Read) != Read
    ensures And(ReadWrite, Read) == Read && And(ReadExec, Read) == Read
    ensures And(ReadWriteExec, Read) == Read && And(WriteExec, Read) != Read
    ensures And(Read, Write) != Write && And(Write, Write) == Write && And(Exec, Write) != Write
    ensures And(ReadWrite, Write) == Write && And(ReadExec, Write) != Write
    ensures And(ReadWriteExec, Write) == Write && And(WriteExec, Write) == Write
    ensures And(Read, Exec) != Exec && And(Write, Exec) != Exec && And(Exec, Exec) == Exec
    ensures And(ReadWrite, Exec) != Exec && And(ReadExec, Exec) == Exec
    ensures And(ReadWriteExec, Exec) == Exec && And(WriteExec, Exec) == Exec
  {
  }
}
