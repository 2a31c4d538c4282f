/** Device strings: text a device keeps in its input registers (a name, a
    serial number), read once per host and substituted into the `$key`
    placeholders of metric descriptions. */
module DeviceStrings {
  import opened Common
  import opened Registers
  import opened Text

  /** One entry of a host's string table: the register address of the
      string and its size in bytes. */
  datatype StringConfig = StringConfig(address: int, size: int)

  /** The slave every string request is addressed to. */
  const STRING_SLAVE: int := 1
  /** The first input register of a device string. */
  const STRING_ADDRESS: int := 25500

  /** A read of input registers (function code 0x04 of the Modbus
      Application Protocol Specification V1.1b3, section 6.4). */
  datatype Request = Request(slaveId: int, address: int, count: int)

  /** The request `_read_string` sends for one string: `size // 2` registers
      at the fixed address, always from the fixed slave. */
  function StringRequest(slaveId: int, config: StringConfig): (q: Request)
    ensures q.slaveId == STRING_SLAVE && q.address == STRING_ADDRESS
    ensures config.size % 2 == 0 ==> q.count * BYTES_PER_REGISTER == config.size
  {
    Request(STRING_SLAVE, STRING_ADDRESS, config.size / 2)
  }

  /** Only the size decides the request: neither the slave id handed to
      `_read_string` nor the configured address makes a difference. */
  lemma StringRequestIgnoresSlaveAndAddress(a: int, b: int, c: StringConfig, d: StringConfig)
    requires c.size == d.size
    ensures StringRequest(a, c) == StringRequest(b, d)
  {
  }

  /** `bytes.find(b"\x00")`: the index of the first zero byte, or -1. */
  function FindNul(buf: seq<Byte>): (k: int)
    ensures k == -1 <==> forall i :: 0 <= i < |buf| ==> buf[i] != 0
    ensures k != -1 ==> 0 <= k < |buf| && buf[k] == 0
    ensures forall i :: 0 <= i < k ==> buf[i] != 0
  {
    if buf == [] then -1
    else if buf[0] == 0 then 0
    else
      var k := FindNul(buf[1..]);
      if k == -1 then -1 else k + 1
  }

  /** The buffer cut off before its first zero byte. */
  function TruncateAtNul(buf: seq<Byte>): (t: seq<Byte>)
    ensures |t| <= |buf| && t == buf[..|t|]
    ensures forall i :: 0 <= i < |t| ==> t[i] != 0
    ensures (forall i :: 0 <= i < |buf| ==> buf[i] != 0) ==> t == buf
    ensures |t| < |buf| ==> buf[|t|] == 0
  {
    var k := FindNul(buf);
    if k != -1 then buf[..k] else buf
  }

  /** Zero-free bytes followed by zero bytes (or nothing): the first zero is
      right after them. */
  lemma {:induction false} FindNulAfter(p: seq<Byte>, rest: seq<Byte>)
    requires forall i :: 0 <= i < |p| ==> p[i] != 0
    requires rest == [] || rest[0] == 0
    ensures FindNul(p + rest) == if rest == [] then -1 else |p|
  {
    if p != [] {
      assert (p + rest)[1..] == p[1..] + rest;
      FindNulAfter(p[1..], rest);
    } else {
      assert p + rest == rest;
    }
  }

  /** Truncation keeps exactly the zero-free bytes in front of the padding. */
  lemma TruncateAtEnd(p: seq<Byte>, padding: seq<Byte>)
    requires forall i :: 0 <= i < |p| ==> p[i] != 0
    requires forall i :: 0 <= i < |padding| ==> padding[i] == 0
    ensures TruncateAtNul(p + padding) == p
  {
    FindNulAfter(p, padding);
    assert (p + padding)[..|p|] == p;
  }

  /** `bytes.decode("ASCII", errors="ignore")`: every byte below 0x80 becomes
      the character with that code; every other byte is dropped. */
  function DecodeAscii(buf: seq<Byte>): (s: string)
    ensures |s| <= |buf|
    ensures forall i :: 0 <= i < |s| ==> s[i] as int < 0x80
    ensures (forall i :: 0 <= i < |buf| ==> buf[i] != 0) ==> forall i :: 0 <= i < |s| ==> s[i] != '\0'
  {
    if buf == [] then []
    else (if buf[0] < 0x80 then [buf[0] as char] else []) + DecodeAscii(buf[1..])
  }

  /** Decoding works byte by byte: it distributes over concatenation. */
  lemma {:induction false} DecodeAsciiAppend(a: seq<Byte>, b: seq<Byte>)
    ensures DecodeAscii(a + b) == DecodeAscii(a) + DecodeAscii(b)
  {
    if a != [] {
      DecodeAsciiAppend(a[1..], b);
      assert (a + b)[0] == a[0];
      assert (a + b)[1..] == a[1..] + b;
    } else {
      assert a + b == b;
    }
  }

  /** An all-ASCII buffer decodes to the characters with the same codes. */
  lemma {:induction false} DecodeAsciiKeepsAscii(buf: seq<Byte>)
    requires forall i :: 0 <= i < |buf| ==> buf[i] < 0x80
    ensures |DecodeAscii(buf)| == |buf|
    ensures forall i :: 0 <= i < |buf| ==> DecodeAscii(buf)[i] as int == buf[i]
  {
    if buf != [] {
      DecodeAsciiKeepsAscii(buf[1..]);
    }
  }

  /** A buffer of bytes 0x80 and above decodes to nothing. */
  lemma {:induction false} DecodeAsciiDropsHigh(buf: seq<Byte>)
    requires forall i :: 0 <= i < |buf| ==> buf[i] >= 0x80
    ensures DecodeAscii(buf) == []
  {
    if buf != [] {
      DecodeAsciiDropsHigh(buf[1..]);
    }
  }

  /** `_read_string` after the read: the size must be even and the device
      must return the requested number of registers; the registers are packed
      big-endian, cut at the first zero byte and decoded as ASCII. */
  function ReadString(config: StringConfig, raw: seq<Register>): (r: Result<string>)
    ensures config.size % 2 != 0 ==> r == Err(AssertionFailed)
    ensures config.size % 2 == 0 && |raw| != config.size / 2 ==> r == Err(RegisterCountMismatch)
    ensures r.Ok? <==> config.size % 2 == 0 && |raw| * BYTES_PER_REGISTER == config.size
    ensures r.Ok? ==> |r.value| <= config.size
    ensures r.Ok? ==> forall i :: 0 <= i < |r.value| ==> r.value[i] != '\0' && r.value[i] as int < 0x80
  {
    if config.size % 2 != 0 then Err(AssertionFailed)
    else if |raw| != config.size / 2 then Err(RegisterCountMismatch)
    else Ok(DecodeAscii(TruncateAtNul(Pack(raw))))
  }

  /** The bytes of an ASCII text. */
  function AsciiBytes(text: string): (b: seq<Byte>)
    requires forall i :: 0 <= i < |text| ==> text[i] as int < 0x80
    ensures |b| == |text| && forall i :: 0 <= i < |text| ==> b[i] == text[i] as int
  {
    seq(|text|, i requires 0 <= i < |text| => text[i] as int)
  }

  /** A text the device stores zero-padded to the configured size reads back
      as that text: the registers holding `text` followed by zero bytes give
      `text`. */
  lemma ReadStringRoundTrip(text: string, config: StringConfig, padding: nat)
    requires forall i :: 0 <= i < |text| ==> 0 < text[i] as int < 0x80
    requires config.size % 2 == 0 && |text| + padding == config.size
    ensures ReadString(config, Unpack(AsciiBytes(text) + seq(padding, _ => 0))) == Ok(text)
  {
    var buf := AsciiBytes(text) + seq(padding, _ => 0);
    PackUnpack(buf);
    DecodePadded(text, padding);
    ReadStringOf(config, Unpack(buf), buf);
  }

  /** The zero-padded bytes of an ASCII text without NUL decode to the text. */
  lemma DecodePadded(text: string, padding: nat)
    requires forall i :: 0 <= i < |text| ==> 0 < text[i] as int < 0x80
    ensures DecodeAscii(TruncateAtNul(AsciiBytes(text) + seq(padding, _ => 0))) == text
  {
    var bytes := AsciiBytes(text);
    TruncateAtEnd(bytes, seq(padding, _ => 0));
    DecodeAsciiKeepsAscii(bytes);
    var decoded := DecodeAscii(bytes);
    assert forall i :: 0 <= i < |text| ==> decoded[i] == text[i];
  }

  /** A complete read of the packed buffer `buf` decodes `buf`. */
  lemma ReadStringOf(config: StringConfig, raw: seq<Register>, buf: seq<Byte>)
    requires config.size % 2 == 0 && |buf| == config.size && Pack(raw) == buf
    ensures ReadString(config, raw) == Ok(DecodeAscii(TruncateAtNul(buf)))
  {
  }

  /** `"Â´"`, the UTF-8 bytes of an acute accent read as Latin-1. */
  const ACUTE_MOJIBAKE: string := "\U{C2}\U{B4}"

  /** `StringReplacer.sanitize`: apostrophes, backticks and mis-decoded acute
      accents become dots, then surrounding whitespace is stripped. */
  function Sanitize(value: string): string {
    Strip(ReplaceAll(ReplaceAll(ReplaceAll(value, "'", "."), "`", "."), ACUTE_MOJIBAKE, "."))
  }

  /** What sanitizing guarantees: no apostrophe, no backtick, no `Â´`, and no
      whitespace at either end. */
  predicate Clean(s: string) {
    && (forall i :: 0 <= i < |s| ==> s[i] != '\'' && s[i] != '`')
    && (forall i :: 0 <= i < |s| ==> !OccursAt(s, ACUTE_MOJIBAKE, i))
    && (s == [] || (!IsSpace(s[0]) && !IsSpace(s[|s| - 1])))
  }

  /** Sanitized text is clean. */
  lemma SanitizeClean(value: string)
    ensures Clean(Sanitize(value))
  {
    var a := ReplaceAll(value, "'", ".");
    ReplaceAllRemovesChar(value, '\'', ".");
    var b := ReplaceAll(a, "`", ".");
    ReplaceAllKeepsAbsent(a, "`", ".", '\'');
    ReplaceAllRemovesChar(a, '`', ".");
    var c := ReplaceAll(b, ACUTE_MOJIBAKE, ".");
    ReplaceAllKeepsAbsent(b, ACUTE_MOJIBAKE, ".", '\'');
    ReplaceAllKeepsAbsent(b, ACUTE_MOJIBAKE, ".", '`');
    ReplaceAllRemoves(b, ACUTE_MOJIBAKE, ".");
    StripKeepsAbsent(c, '\'');
    StripKeepsAbsent(c, '`');
    StripKeepsNoOccurrence(c, ACUTE_MOJIBAKE);
  }

  /** Clean text is left as it is: sanitizing twice is sanitizing once. */
  lemma SanitizeKeepsClean(s: string)
    requires Clean(s)
    ensures Sanitize(s) == s
  {
    forall i ensures !OccursAt(s, "'", i) {
      if 0 <= i < |s| {
        assert s[i..i + 1] == [s[i]];
      }
    }
    ReplaceAllIdentity(s, "'", ".");
    forall i ensures !OccursAt(s, "`", i) {
      if 0 <= i < |s| {
        assert s[i..i + 1] == [s[i]];
      }
    }
    ReplaceAllIdentity(s, "`", ".");
    ReplaceAllIdentity(s, ACUTE_MOJIBAKE, ".");
    StripStripped(s);
  }

  lemma SanitizeIdempotent(value: string)
    ensures Sanitize(Sanitize(value)) == Sanitize(value)
  {
    SanitizeClean(value);
    SanitizeKeepsClean(Sanitize(value));
  }

  /** Every apostrophe and backtick of `s` turned into a dot, every other
      character kept in its place. */
  function QuotesToDots(s: string): string {
    seq(|s|, i requires 0 <= i < |s| => if s[i] == '\'' || s[i] == '`' then '.' else s[i])
  }

  /** Text without a `Â`, the first character of `ACUTE_MOJIBAKE`. */
  predicate NoMojibakeLead(s: string) {
    forall i :: 0 <= i < |s| ==> s[i] != ACUTE_MOJIBAKE[0]
  }

  /** The two one-character replacements of `Sanitize` together turn quotes
      into dots and keep everything else. */
  lemma QuotesReplaced(s: string)
    ensures ReplaceAll(ReplaceAll(s, "'", "."), "`", ".") == QuotesToDots(s)
  {
    ReplaceCharPointwise(s, '\'', '.');
    ReplaceCharPointwise(ReplaceAll(s, "'", "."), '`', '.');
  }

  /** `Â´` cannot occur in text without a `Â`: the last replacement of
      `Sanitize` leaves it as it is. */
  lemma NoMojibakeUnchanged(s: string)
    requires NoMojibakeLead(s)
    ensures ReplaceAll(s, ACUTE_MOJIBAKE, ".") == s
  {
    forall i ensures !OccursAt(s, ACUTE_MOJIBAKE, i) {
      if 0 <= i && i + 2 <= |s| {
        assert s[i..i + 2][0] == s[i];
      }
    }
    ReplaceAllIdentity(s, ACUTE_MOJIBAKE, ".");
  }

  /** Sanitizing text without `Â´`: apostrophes and backticks become dots,
      every other character is kept in its place, and the whitespace at
      both ends is stripped. */
  lemma SanitizeText(s: string)
    requires NoMojibakeLead(s)
    ensures Sanitize(s) == Strip(QuotesToDots(s))
  {
    QuotesReplaced(s);
    NoMojibakeUnchanged(QuotesToDots(s));
  }

  /** One `Â´` between two pieces of text without a `Â` becomes one dot. */
  lemma MojibakeBetween(a: string, b: string)
    requires NoMojibakeLead(a) && NoMojibakeLead(b)
    ensures ReplaceAll(a + (ACUTE_MOJIBAKE + b), ACUTE_MOJIBAKE, ".") == a + ("." + b)
  {
    assert NoneAcross(a, ACUTE_MOJIBAKE + b, ACUTE_MOJIBAKE) by {
      forall k | 0 <= k < |a| < k + 2
        ensures !OccursAt(a + (ACUTE_MOJIBAKE + b), ACUTE_MOJIBAKE, k)
      {
        assert (a + (ACUTE_MOJIBAKE + b))[k] == a[k];
      }
    }
    ReplaceAllAppend(a, ACUTE_MOJIBAKE + b, ACUTE_MOJIBAKE, ".");
    assert ReplaceAll(ACUTE_MOJIBAKE + b, ACUTE_MOJIBAKE, ".") == "." + b by {
      assert NoneAcross(ACUTE_MOJIBAKE, b, ACUTE_MOJIBAKE) by {
        assert (ACUTE_MOJIBAKE + b)[1] != ACUTE_MOJIBAKE[0];
      }
      ReplaceAllAppend(ACUTE_MOJIBAKE, b, ACUTE_MOJIBAKE, ".");
      ReplaceAllPattern(ACUTE_MOJIBAKE, ".");
      NoMojibakeUnchanged(b);
    }
    NoMojibakeUnchanged(a);
  }

  /** Sanitizing text with one `Â´` between two pieces without any: the
      accent becomes a single dot, and the pieces are sanitized as above. */
  lemma SanitizeMojibake(a: string, b: string)
    requires NoMojibakeLead(a) && NoMojibakeLead(b)
    ensures Sanitize(a + ACUTE_MOJIBAKE + b) == Strip(QuotesToDots(a) + "." + QuotesToDots(b))
  {
    var s := a + ACUTE_MOJIBAKE + b;
    var qa, qb := QuotesToDots(a), QuotesToDots(b);
    assert QuotesToDots(s) == qa + (ACUTE_MOJIBAKE + qb);
    QuotesReplaced(s);
    MojibakeBetween(qa, qb);
    assert qa + ("." + qb) == qa + "." + qb;
  }

  /** A `StringReplacer`: the sanitized device strings by key. */
  datatype Replacer = Replacer(mapping: map<string, string>)

  /** `StringReplacer.__init__`: the same keys, every value sanitized. */
  function NewReplacer(mapping: map<string, string>): (r: Replacer)
    ensures r.mapping.Keys == mapping.Keys
    ensures forall k :: k in mapping ==> r.mapping[k] == Sanitize(mapping[k])
  {
    Replacer(map k | k in mapping :: Sanitize(mapping[k]))
  }

  /** Every value a replacer holds is clean. */
  lemma NewReplacerClean(mapping: map<string, string>)
    ensures forall k :: k in NewReplacer(mapping).mapping ==> Clean(NewReplacer(mapping).mapping[k])
  {
    forall k | k in mapping ensures Clean(Sanitize(mapping[k])) {
      SanitizeClean(mapping[k]);
    }
  }

  /** `StringReplacer.__call__`. The `$key` substitution of
      `string.Template.safe_substitute` is a parameter of the model. */
  function Substitute(replacer: Replacer, description: string,
                      safeSubstitute: (string, map<string, string>) -> string): (r: string)
    ensures replacer.mapping == map[] ==> r == description
    ensures replacer.mapping != map[] ==> r == safeSubstitute(description, replacer.mapping)
  {
    if replacer.mapping == map[] then description
    else safeSubstitute(description, replacer.mapping)
  }

  /** A replacer built from an empty table returns every description unchanged. */
  lemma EmptyReplacerIsIdentity(description: string, safeSubstitute: (string, map<string, string>) -> string)
    ensures Substitute(NewReplacer(map[]), description, safeSubstitute) == description
  {
    assert NewReplacer(map[]).mapping == map[];
  }

  /** A table whose keys are distinct, as the keys of a dictionary are. */
  predicate DistinctKeys<V>(entries: seq<(string, V)>) {
    forall i, j :: 0 <= i < j < |entries| ==> entries[i].0 != entries[j].0
  }

  /** A dictionary comprehension whose values may raise: the pairs are
      evaluated in order, the first error ends it, and a later key
      overwrites an earlier one. */
  function Collect(entries: seq<(string, Result<string>)>): (r: Result<map<string, string>>)
    ensures r.Ok? <==> forall i :: 0 <= i < |entries| ==> entries[i].1.Ok?
  {
    if entries == [] then Ok(map[])
    else
      var n := |entries| - 1;
      var before := Collect(entries[..n]);
      if before.Err? then before
      else if entries[n].1.Err? then Err(entries[n].1.error)
      else Ok(before.value[entries[n].0 := entries[n].1.value])
  }

  /** The keys of a successful comprehension are exactly the keys of its pairs. */
  lemma {:induction false} CollectKeys(entries: seq<(string, Result<string>)>, key: string)
    requires Collect(entries).Ok?
    ensures key in Collect(entries).value <==> exists i :: 0 <= i < |entries| && entries[i].0 == key
  {
    if entries != [] {
      var n := |entries| - 1;
      var init := entries[..n];
      CollectKeys(init, key);
      assert forall i :: 0 <= i < n ==> init[i] == entries[i];
      if key in Collect(entries).value && key != entries[n].0 {
        var i :| 0 <= i < n && init[i].0 == key;
        assert entries[i].0 == key;
      }
    }
  }

  /** With distinct keys, every key holds its own value. */
  lemma {:induction false} CollectHolds(entries: seq<(string, Result<string>)>, i: nat)
    requires DistinctKeys(entries) && i < |entries|
    requires Collect(entries).Ok?
    ensures entries[i].0 in Collect(entries).value
    ensures Collect(entries).value[entries[i].0] == entries[i].1.value
  {
    var n := |entries| - 1;
    if i < n {
      var init := entries[..n];
      assert init[i] == entries[i];
      assert DistinctKeys(init);
      CollectHolds(init, i);
    }
  }

  /** The first failing pair decides the error. */
  lemma {:induction false} CollectFirstError(entries: seq<(string, Result<string>)>, k: nat)
    requires k < |entries| && entries[k].1.Err?
    requires forall i :: 0 <= i < k ==> entries[i].1.Ok?
    ensures Collect(entries) == Err(entries[k].1.error)
  {
    var n := |entries| - 1;
    var init := entries[..n];
    if k < n {
      assert init[k] == entries[k];
      assert forall i :: 0 <= i < k ==> init[i] == entries[i];
      CollectFirstError(init, k);
    } else {
      assert forall i :: 0 <= i < n ==> init[i] == entries[i];
    }
  }

  /** The pairs of the `values` comprehension of `read_strings`: each key with
      the outcome of reading its string, `reply(i, q)` being the registers
      the device answers to the `i`-th request `q`. */
  function StringReads(slaveId: int, strings: seq<(string, StringConfig)>,
                       reply: (nat, Request) -> seq<Register>): (es: seq<(string, Result<string>)>)
    ensures |es| == |strings|
    ensures forall i :: 0 <= i < |strings| ==>
      es[i] == (strings[i].0, ReadString(strings[i].1, reply(i, StringRequest(slaveId, strings[i].1))))
  {
    seq(|strings|, i requires 0 <= i < |strings| =>
      (strings[i].0, ReadString(strings[i].1, reply(i, StringRequest(slaveId, strings[i].1)))))
  }

  /** What `read_strings` does: whether it connected to the device, and the
      replacer it returns or the error it raises. */
  datatype Reading = Reading(connected: bool, result: Result<Replacer>)

  /** `read_strings`: without a string table, or with an empty one, an empty
      replacer and no connection; otherwise every string is read over one
      connection and the replacer sanitizes the values. */
  function ReadStrings(slaveId: int, strings: Option<seq<(string, StringConfig)>>,
                       reply: (nat, Request) -> seq<Register>): (r: Reading)
    ensures !r.connected <==> strings.None? || strings.value == []
    ensures !r.connected ==> r.result == Ok(Replacer(map[]))
    ensures r.connected ==> (r.result.Ok? <==> forall i :: 0 <= i < |strings.value| ==>
      ReadString(strings.value[i].1, reply(i, StringRequest(slaveId, strings.value[i].1))).Ok?)
  {
    if strings.None? || strings.value == [] then Reading(false, Ok(NewReplacer(map[])))
    else
      var values := Collect(StringReads(slaveId, strings.value, reply));
      Reading(true, if values.Err? then Err(values.error) else Ok(NewReplacer(values.value)))
  }

  /** After a successful `read_strings` with a table, the replacer holds,
      for every key, the sanitized string read for it. */
  lemma ReadStringsHolds(slaveId: int, strings: seq<(string, StringConfig)>,
                         reply: (nat, Request) -> seq<Register>, i: nat)
    requires DistinctKeys(strings) && 0 <= i < |strings|
    requires ReadStrings(slaveId, Some(strings), reply).result.Ok?
    ensures var m := ReadStrings(slaveId, Some(strings), reply).result.value.mapping;
      strings[i].0 in m
      && m[strings[i].0] == Sanitize(ReadString(strings[i].1, reply(i, StringRequest(slaveId, strings[i].1))).value)
  {
    var entries := StringReads(slaveId, strings, reply);
    assert DistinctKeys(entries);
    CollectHolds(entries, i);
  }

  /** The replacer's keys are exactly the keys of the string table. */
  lemma ReadStringsKeys(slaveId: int, strings: seq<(string, StringConfig)>,
                        reply: (nat, Request) -> seq<Register>, key: string)
    requires ReadStrings(slaveId, Some(strings), reply).result.Ok?
    ensures key in ReadStrings(slaveId, Some(strings), reply).result.value.mapping
      <==> exists i :: 0 <= i < |strings| && strings[i].0 == key
  {
    if strings != [] {
      var entries := StringReads(slaveId, strings, reply);
      CollectKeys(entries, key);
      if exists i :: 0 <= i < |strings| && strings[i].0 == key {
        var i :| 0 <= i < |strings| && strings[i].0 == key;
        assert entries[i].0 == key;
      }
    }
  }

  /** The first string that cannot be read decides the error `read_strings` raises. */
  lemma ReadStringsFirstError(slaveId: int, strings: seq<(string, StringConfig)>,
                              reply: (nat, Request) -> seq<Register>, k: nat)
    requires k < |strings|
    requires forall i :: 0 <= i < k ==>
      ReadString(strings[i].1, reply(i, StringRequest(slaveId, strings[i].1))).Ok?
    requires ReadString(strings[k].1, reply(k, StringRequest(slaveId, strings[k].1))).Err?
    ensures ReadStrings(slaveId, Some(strings), reply)
      == Reading(true, Err(ReadString(strings[k].1, reply(k, StringRequest(slaveId, strings[k].1))).error))
  {
    CollectFirstError(StringReads(slaveId, strings, reply), k);
  }
}
