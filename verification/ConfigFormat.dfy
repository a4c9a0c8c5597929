/** The records of the settings store (config_store.c) and how the two banks are read. */
module ConfigFormat {
  import opened Bytes
  import opened Crc
  import opened BootFormat

  const CONFIG_MAGIC: u32 := 0x31464347
  const CONFIG0_OFFSET := 0xE_1000
  const CONFIG1_OFFSET := 0xE_5000
  const CONFIG_BANK_BYTES := 0x4000
  const CONFIG_HEADER_BYTES := 32
  const SETTINGS_MAX := 2048
  const INSTANCES_MAX := 8193

  datatype ConfigHeader = ConfigHeader(
    magic: u32, format: u32, sequence: u32, settingsBytes: u32, instancesBytes: u32,
    payloadCrc: u32, reserved: u32, crc: u32)

  function ConfigFront(h: ConfigHeader): seq<u32>
  {
    [h.magic, h.format, h.sequence, h.settingsBytes, h.instancesBytes, h.payloadCrc, h.reserved]
  }

  function ConfigBody(h: ConfigHeader): (s: seq<byte>)
    ensures |s| == CONFIG_HEADER_BYTES - 4
  {
    Encode(ConfigFront(h))
  }

  function ConfigHeaderBytes(h: ConfigHeader): (s: seq<byte>)
    ensures |s| == CONFIG_HEADER_BYTES
  {
    ConfigBody(h) + WordBytes(h.crc)
  }

  function ConfigHeaderOf(s: seq<byte>): ConfigHeader
    requires |s| == CONFIG_HEADER_BYTES
  {
    ConfigHeader(Word(s, 0), Word(s, 4), Word(s, 8), Word(s, 12), Word(s, 16), Word(s, 20), Word(s, 24), Word(s, 28))
  }

  lemma ConfigHeaderRoundTrip(h: ConfigHeader)
    ensures ConfigHeaderOf(ConfigHeaderBytes(h)) == h
  {
    var s, front := ConfigHeaderBytes(h), Encode(ConfigFront(h));
    assert s[..28] == front;
    forall k: nat | k < 7
      ensures Word(s, 4 * k) == ConfigFront(h)[k]
    {
      WordAt(ConfigFront(h), k);
      assert Word(s, 4 * k) == Word(front, 4 * k);
    }
    assert Word(s, 4 * 0) == h.magic && Word(s, 4 * 1) == h.format && Word(s, 4 * 2) == h.sequence;
    assert Word(s, 4 * 3) == h.settingsBytes && Word(s, 4 * 4) == h.instancesBytes;
    assert Word(s, 4 * 5) == h.payloadCrc && Word(s, 4 * 6) == h.reserved;
    WordOfWordBytes(h.crc);
    assert Word(s, 28) == Word(WordBytes(h.crc), 0);
  }

  /** A stored pair of texts; neither text contains its terminating NUL. */
  datatype Config = Config(sequence: u32, settings: seq<byte>, instances: seq<byte>)

  function ConfigOffset(bank: nat): nat
    requires bank <= 1
  {
    if bank == 0 then CONFIG0_OFFSET else CONFIG1_OFFSET
  }

  /** The header checks of `record`. */
  predicate ConfigHeaderValid(h: ConfigHeader)
  {
    && h.magic == CONFIG_MAGIC && h.format == 1 && h.sequence != 0 && h.reserved == 0
    && 3 <= h.settingsBytes <= SETTINGS_MAX && 3 <= h.instancesBytes <= INSTANCES_MAX
    && h.crc == Crc32(ConfigBody(h))
  }

  /** The payload checks of `record`: two NUL-terminated texts of the recorded lengths. */
  predicate ConfigPayloadValid(h: ConfigHeader, p: seq<byte>)
    requires ConfigHeaderValid(h) && |p| == h.settingsBytes as int + h.instancesBytes as int
  {
    var sn := h.settingsBytes;
    && p[sn - 1] == 0 && p[|p| - 1] == 0 && Crc32(p) == h.payloadCrc
    && 0 !in p[..sn - 1] && 0 !in p[sn..|p| - 1]
  }

  /** `record`, on the bytes of one bank. */
  function BankRecord(b: seq<byte>): Option<Config>
    requires |b| == CONFIG_BANK_BYTES
  {
    var h := ConfigHeaderOf(b[..CONFIG_HEADER_BYTES]);
    if !ConfigHeaderValid(h) then None else
    var sn, n := h.settingsBytes as int, h.settingsBytes as int + h.instancesBytes as int;
    var p := b[CONFIG_HEADER_BYTES..CONFIG_HEADER_BYTES + n];
    if ConfigPayloadValid(h, p) then Some(Config(h.sequence, p[..sn - 1], p[sn..n - 1])) else None
  }

  function ConfigBank(mem: seq<byte>, bank: nat): (b: seq<byte>)
    requires |mem| == NOR_BYTES && bank <= 1
    ensures |b| == CONFIG_BANK_BYTES
  {
    mem[ConfigOffset(bank)..ConfigOffset(bank) + CONFIG_BANK_BYTES]
  }

  function ConfigRecord(mem: seq<byte>, bank: nat): Option<Config>
    requires |mem| == NOR_BYTES && bank <= 1
  {
    BankRecord(ConfigBank(mem, bank))
  }

  /** `latest`: the bank whose record is in force, or -1. */
  function ConfigLatest(mem: seq<byte>): (bank: int)
    requires |mem| == NOR_BYTES
    ensures -1 <= bank <= 1
  {
    var a, b := ConfigRecord(mem, 0), ConfigRecord(mem, 1);
    if b.Some? && (a.None? || Later(b.value.sequence, a.value.sequence)) then 1
    else if a.Some? then 0 else -1
  }

  /** The pair in force. */
  function ConfigRead(mem: seq<byte>): Option<Config>
    requires |mem| == NOR_BYTES
  {
    var bank := ConfigLatest(mem);
    if bank < 0 then None else ConfigRecord(mem, bank)
  }
}
