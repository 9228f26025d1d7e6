/**
 * The one-line JSON record the sensor writes per connection,
 * `{"v": [<hash>, <length>]}` followed by a newline, together with a reader
 * for exactly that layout. The reader is the inverse the round-trip lemmas
 * are stated against; it is not a general JSON parser.
 */
module Record {
  import opened Decimal

  datatype Option<T> = None | Some(value: T)

  /** The two features of one connection: the hash of its bytes and their number. */
  datatype Features = Features(hash: nat, length: nat)

  const Prefix: string := "{\"v\": ["
  const Separator: string := ", "
  const Suffix: string := "]}\n"

  /** The line `fprintf(stdout, "{\"v\": [%lu, %zd]}\n", hash, length)` writes. */
  function FormatRecord(hash: nat, length: nat): string
  {
    Prefix + RecordBody(hash, length) + Suffix
  }

  /** What stands between the brackets: `<hash>, <length>`. */
  function RecordBody(hash: nat, length: nat): string
  {
    NatToDecimal(hash) + Separator + NatToDecimal(length)
  }

  /** A record is one line: it ends in a newline and holds no other. */
  lemma RecordIsOneLine(hash: nat, length: nat)
    ensures var r := FormatRecord(hash, length); |r| > 0 && r[|r| - 1] == '\n'
    ensures var r := FormatRecord(hash, length); forall i | 0 <= i < |r| - 1 :: r[i] != '\n'
  {
  }

  /** The index of the first `c` in `s`, or `|s|` when there is none. */
  function IndexOf(s: string, c: char): (k: nat)
    ensures k <= |s|
    ensures k < |s| ==> s[k] == c
    ensures forall i | 0 <= i < k :: s[i] != c
  {
    if s == [] then 0 else if s[0] == c then 0 else 1 + IndexOf(s[1..], c)
  }

  /** Reads `<hash>, <length>`: two canonical numerals around the separator. */
  function ParseBody(body: string): Option<Features>
  {
    var k := IndexOf(body, ',');
    if k + |Separator| > |body| || body[k..k + |Separator|] != Separator then None
    else
      var first, second := body[..k], body[k + |Separator|..];
      if IsCanonical(first) && IsCanonical(second)
      then Some(Features(DecimalValue(first), DecimalValue(second)))
      else None
  }

  /** Reads one record line; `None` for anything not in the record's layout. */
  function ParseRecord(line: string): Option<Features>
  {
    if |line| < |Prefix| + |Suffix| || line[..|Prefix|] != Prefix || line[|line| - |Suffix|..] != Suffix
    then None
    else ParseBody(line[|Prefix|..|line| - |Suffix|])
  }

  /** The separator is found right after a run of digits. */
  lemma {:induction false} IndexOfAfterDigits(d: string, rest: string)
    requires AllDigits(d) && |rest| > 0 && rest[0] == ','
    ensures IndexOf(d + rest, ',') == |d|
    decreases |d|
  {
    if d == [] {
      assert d + rest == rest;
    } else {
      assert (d + rest)[1..] == d[1..] + rest;
      IndexOfAfterDigits(d[1..], rest);
    }
  }

  /** The reader strips the record's frame and reads what is inside. */
  lemma ParseRecordFrame(body: string)
    ensures ParseRecord(Prefix + body + Suffix) == ParseBody(body)
  {
  }

  /** Two rendered numbers around the separator read back as those numbers. */
  lemma ParseBodyOfNumerals(hash: nat, length: nat)
    ensures ParseBody(RecordBody(hash, length)) == Some(Features(hash, length))
  {
    var h, n := NatToDecimal(hash), NatToDecimal(length);
    var body := h + Separator + n;
    IndexOfAfterDigits(h, Separator + n);
    assert body == h + (Separator + n);
    assert body[..|h|] == h;
    assert body[|h|..|h| + |Separator|] == Separator;
    assert body[|h| + |Separator|..] == n;
    DecimalValueOfNatToDecimal(hash);
    DecimalValueOfNatToDecimal(length);
  }

  /** Every record the sensor writes reads back as the features it was written from. */
  lemma RecordRoundTrip(hash: nat, length: nat)
    ensures ParseRecord(FormatRecord(hash, length)) == Some(Features(hash, length))
  {
    ParseRecordFrame(RecordBody(hash, length));
    ParseBodyOfNumerals(hash, length);
  }

  /** A body the reader accepts is two canonical numerals around the separator. */
  lemma ParsedBodyShape(body: string)
    requires ParseBody(body).Some?
    ensures body == RecordBody(ParseBody(body).value.hash, ParseBody(body).value.length)
  {
    var k := IndexOf(body, ',');
    var first, second := body[..k], body[k + |Separator|..];
    assert body == first + Separator + second;
    NatToDecimalOfDecimalValue(first);
    NatToDecimalOfDecimalValue(second);
  }

  /** A string that starts with `a` and ends with `c` is `a`, its middle and `c`. */
  lemma SplitFrame(line: string, a: string, c: string)
    requires |line| >= |a| + |c|
    requires line[..|a|] == a && line[|line| - |c|..] == c
    ensures line == a + line[|a|..|line| - |c|] + c
  {
  }

  /** Conversely, every line the reader accepts is the record of what it read. */
  lemma RecordOfParse(line: string)
    requires ParseRecord(line).Some?
    ensures FormatRecord(ParseRecord(line).value.hash, ParseRecord(line).value.length) == line
  {
    var f := ParseRecord(line).value;
    var body := line[|Prefix|..|line| - |Suffix|];
    assert ParseBody(body) == Some(f);
    SplitFrame(line, Prefix, Suffix);
    ParsedBodyShape(body);
  }
}
