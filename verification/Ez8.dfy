/** Constants of ez8.h, the errors the debugger throws, and images of flash memory. */
module Ez8 {

  type Byte = bv8

  const EZ8MEM_SIZE := 0x10000
  type Address = a: nat | a < EZ8MEM_SIZE
  const EZ8REG_SIZE := 0x1000
  const EZ8MEM_PAGESIZE := 512
  const EZ8_PERIPHERIAL_BASE := 0xf00
  const EZ8_IRQCTL := 0xfcf
  const EZ8_FIF_BASE := 0xff8

  const EZ8_FIF_LOCK: Byte := 0x00
  const EZ8_FIF_UNLOCK_0: Byte := 0x73
  const EZ8_FIF_UNLOCK_1: Byte := 0x8c
  const EZ8_FIF_PROT_REG: Byte := 0x5e
  const EZ8_FIF_PAGE_ERASE: Byte := 0x95
  const EZ8_FIF_MASS_ERASE: Byte := 0x63
  const EZ8_DI_OPCODE: Byte := 0x8f

  /** Why an operation threw. */
  datatype Error =
    | OutOfRange | Running | Protected | LinkFailed | VerifyFailed
    | AlreadySet | NullAddress | NotSet | FlashBusy | Unsupported

  datatype Result<+T> = Ok(value: T) | Fail(error: Error) {
    predicate IsFailure() {
      Fail?
    }

    function PropagateFailure<U>(): Result<U>
      requires Fail?
    {
      Fail(error)
    }

    function Extract(): T
      requires Ok?
    {
      value
    }
  }

  // ----- Bytes and numbers -----

  function ByteOf(n: nat): Byte
    requires n < 256
  {
    n as Byte
  }

  function NatOf(b: Byte): (n: nat)
    ensures n < 256
  {
    b as nat
  }

  lemma NatOfByteOf(n: nat)
    requires n < 256
    ensures NatOf(ByteOf(n)) == n
  {
    assert n % 256 == n;
    assert (n as Byte) as nat == n % 256;
  }

  lemma ByteOfNatOf(b: Byte)
    ensures ByteOf(NatOf(b)) == b
  {
    assert (b as nat) as Byte == b;
  }

  // ----- Images -----

  type Image = m: seq<Byte> | |m| == EZ8MEM_SIZE witness seq(EZ8MEM_SIZE, _ => 0xff)

  /** `m` with `data` copied in at `at`. */
  function Overlay(m: Image, at: nat, data: seq<Byte>): (r: Image)
    requires at + |data| <= EZ8MEM_SIZE
  {
    seq(EZ8MEM_SIZE, i requires 0 <= i < EZ8MEM_SIZE =>
      if at <= i < at + |data| then data[i - at] else m[i])
  }

  function And(x: Byte, y: Byte): Byte {
    x & y
  }

  /** Flash programming only clears bits. */
  function Program(m: Image, at: nat, data: seq<Byte>): (r: Image)
    requires at + |data| <= EZ8MEM_SIZE
  {
    seq(EZ8MEM_SIZE, i requires 0 <= i < EZ8MEM_SIZE =>
      if at <= i < at + |data| then And(m[i], data[i - at]) else m[i])
  }

  /** Erasing a page sets every bit of its 512 bytes. */
  function ErasePage(m: Image, page: nat): (r: Image) {
    seq(EZ8MEM_SIZE, i requires 0 <= i < EZ8MEM_SIZE => if i / EZ8MEM_PAGESIZE == page then 0xff else m[i])
  }

  /** `n` erased bytes. */
  function Blank(n: nat): (s: seq<Byte>)
    ensures |s| == n && forall i :: 0 <= i < n ==> s[i] == 0xff
  {
    seq(n, i requires 0 <= i < n => 0xff)
  }

  lemma AndBlank(x: Byte)
    ensures And(0xff, x) == x && And(x, 0xff) == x
  {}

  lemma AndZero(x: Byte)
    ensures And(x, 0) == 0
  {}
}
