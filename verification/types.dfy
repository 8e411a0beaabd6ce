/** Basic types shared by the SPP session layer: fixed-width integers, the
    six-byte Bluetooth device address, the optional stream-buffer handle and
    the calls the session layer makes into the Bluetooth stack. */
module SppTypes {

  /** A `uint32_t`: connection handles are 32-bit values assigned by the stack. */
  type u32 = x: int | 0 <= x < 0x1_0000_0000

  /** One byte of payload or address. */
  type byte = bv8

  /** `esp_bd_addr_t`: a remote device address is exactly six bytes. */
  type Bda = a: seq<byte> | |a| == 6 witness [0, 0, 0, 0, 0, 0]

  /** The handle value that means "no connection" for the default send target. */
  const NO_HANDLE: u32 := 0

  datatype Option<+T> = None | Some(value: T)

  /** Result code of the stack's send primitive (`esp_err_t`). */
  datatype Status = EspOk | EspFail(code: int)

  /** A call the session layer makes into the Bluetooth stack. */
  datatype Call =
    | Send(handle: u32, data: seq<byte>)   // esp_spp_write(handle, len, data)
    | Disconnect(handle: u32)              // esp_spp_disconnect(handle)
}
