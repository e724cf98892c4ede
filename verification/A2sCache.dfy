/** The a2s_info map: cached A2S answers and challenges by server, shared by the A2S stage
    and the decapsulation of the XDP program. */
module A2sCache {
  import opened Bits
  import opened Packet

  const DATA_SIZE: nat := 1024

  datatype Server = Server(ip: Bytes4, port: Bytes2)

  /** a2s_info_val */
  datatype Cached = Cached(size: u16, expires: u64, data: seq<u8>, challenge: Bytes4, challengeSet: bool)

  type Entry = e: Cached | |e.data| == DATA_SIZE witness Cached(0, 0, seq(1024, _ => 0), [0, 0, 0, 0], false)

  type Cache = map<Server, Entry>
}
