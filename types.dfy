/**
 * Basic types shared by the AIMF model: fixed-width unsigned integers,
 * IPv4 addresses, simulated time, and the Option/Result wrappers used
 * for "not found" and "malformed input" outcomes.
 */
module AimfTypes {

  /** uint8_t */
  type Byte = x: int | 0 <= x < 0x100
  /** uint16_t */
  type U16 = x: int | 0 <= x < 0x1_0000
  /** uint32_t */
  type U32 = x: int | 0 <= x < 0x1_0000_0000

  /** Unsigned 32-bit arithmetic: the value a uint32_t holds after x is stored in it. */
  function Wrap32(x: int): (r: U32)
    ensures 0 <= x < 0x1_0000_0000 ==> r == x
    ensures (r - x) % 0x1_0000_0000 == 0
  {
    x % 0x1_0000_0000
  }

  /** Unsigned 16-bit arithmetic: the value a uint16_t holds after x is stored in it. */
  function Wrap16(x: int): (r: U16)
    ensures 0 <= x < 0x1_0000 ==> r == x
    ensures (r - x) % 0x1_0000 == 0
  {
    x % 0x1_0000
  }

  /** An IPv4 address, as the 32-bit value Ipv4Address::Get returns. */
  type Addr = U32

  /** Simulated time in seconds, exact (ns-3 keeps integer nanoseconds). */
  type Time = real

  datatype Option<+T> = None | Some(value: T)

  /** Reasons for which a received packet is discarded. */
  datatype DecodeError =
    | Truncated        // a read would pass the end of the buffer
    | NotHello         // message type other than HELLO_MESSAGE
    | BadHelloSize     // HELLO payload size is not 2 + 8k
    | BadPacketLength  // packet length below the packet header size

  datatype Result<+T> = Ok(value: T) | Err(error: DecodeError)

  /** MessageHeader::HELLO_MESSAGE */
  const HELLO_MESSAGE: Byte := 1

  /** Willingness constants of the protocol. */
  const WILL_NEVER: Byte := 0
  const WILL_LOW: Byte := 1
  const WILL_DEFAULT: Byte := 3
  const WILL_HIGH: Byte := 6
  const WILL_ALWAYS: Byte := 7

  /** AIMF_MAX_SEQ_NUM */
  const MAX_SEQ_NUM: U16 := 65535

  /** Ipv4::IF_ANY */
  const IF_ANY: U32 := 0xffff_ffff

  /** Ipv4MulticastRoute::MAX_TTL */
  const MAX_TTL: nat := 255
}
