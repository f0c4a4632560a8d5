/** Permission evaluation of the inode tree (fs/orm.py, `_readable_by`,
    `_writable_by`, `_executable_by`): three triads of read, write and execute
    bits, OR-ed across the triads that apply to the asking account. */
module Permissions {
  import opened Common

  /** An account of the surrounding HIS system: its identity, the customer it
      belongs to and whether it is a root (super-user) account. */
  datatype Account = Account(id: nat, customer: CustomerId, root: bool)

  datatype Triad = Triad(read: bool, write: bool, execute: bool)

  /** The nine bits of `vfslib.FileMode`. */
  datatype Mode = Mode(user: Triad, group: Triad, other: Triad)

  datatype Access = Read | Write | Execute

  function Bit(t: Triad, access: Access): bool
  {
    match access
    case Read => t.read
    case Write => t.write
    case Execute => t.execute
  }

  /** Accounts are compared as database records are: by their identity. */
  predicate IsOwner(account: Account, owner: Account)
  {
    account.id == owner.id
  }

  /** The group triad applies to accounts of the owner's customer. */
  predicate SameCustomer(account: Account, owner: Account)
  {
    account.customer == owner.customer
  }

  /** The triad check shared by the three predicates: the owner triad for
      the owner, the group triad for the owner's customer, the other triad
      for everyone; any applicable set bit grants. */
  predicate TriadsGrant(mode: Mode, owner: Account, account: Account, access: Access)
  {
    if Bit(mode.user, access) && IsOwner(account, owner) then true
    else if Bit(mode.group, access) && SameCustomer(account, owner) then true
    else Bit(mode.other, access)
  }

  /** `_readable_by`: root accounts read anything. */
  function ReadableBy(mode: Mode, owner: Account, account: Account): (r: bool)
    ensures r <==> account.root
                   || (mode.user.read && IsOwner(account, owner))
                   || (mode.group.read && SameCustomer(account, owner))
                   || mode.other.read
  {
    if account.root then true else TriadsGrant(mode, owner, account, Read)
  }

  /** `_writable_by`: no root bypass. */
  function WritableBy(mode: Mode, owner: Account, account: Account): (r: bool)
    ensures r <==> (mode.user.write && IsOwner(account, owner))
                   || (mode.group.write && SameCustomer(account, owner))
                   || mode.other.write
  {
    TriadsGrant(mode, owner, account, Write)
  }

  /** `_executable_by`: no root bypass. */
  function ExecutableBy(mode: Mode, owner: Account, account: Account): (r: bool)
    ensures r <==> (mode.user.execute && IsOwner(account, owner))
                   || (mode.group.execute && SameCustomer(account, owner))
                   || mode.other.execute
  {
    TriadsGrant(mode, owner, account, Execute)
  }

  /** Every bit of `m` is also set in `n`. */
  predicate Includes(n: Mode, m: Mode)
  {
    forall access: Access ::
      (Bit(m.user, access) ==> Bit(n.user, access))
      && (Bit(m.group, access) ==> Bit(n.group, access))
      && (Bit(m.other, access) ==> Bit(n.other, access))
  }

  /** Setting more bits never takes a permission away: the triads are not
      combined by precedence, so a clear owner bit does not hide a set
      other bit. */
  lemma MoreBitsGrantMore(m: Mode, n: Mode, owner: Account, account: Account, access: Access)
    requires Includes(n, m)
    requires TriadsGrant(m, owner, account, access)
    ensures TriadsGrant(n, owner, account, access)
  {
    assert Bit(m.user, access) ==> Bit(n.user, access);
    assert Bit(m.group, access) ==> Bit(n.group, access);
    assert Bit(m.other, access) ==> Bit(n.other, access);
  }

  /** The owner is granted through the other triad even when the owner
      triad is clear: there is no precedence of the owner triad. */
  lemma NoOwnerPrecedence(owner: Account)
    ensures ReadableBy(Mode(Triad(false, false, false), Triad(false, false, false), Triad(true, false, false)),
                       owner, owner)
  {
  }

  /** A root account is refused writing and executing when no bit grants
      them, although it may always read. */
  lemma RootBypassIsForReadOnly(root: Account)
    requires root.root
    ensures var none := Mode(Triad(false, false, false), Triad(false, false, false), Triad(false, false, false));
            ReadableBy(none, root, root) && !WritableBy(none, root, root) && !ExecutableBy(none, root, root)
  {
  }
}
