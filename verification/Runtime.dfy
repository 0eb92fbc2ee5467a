/** What the program takes from its standard library: instants, addresses,
    networks, and literal parsers, which are arbitrary partial functions here. */
module Runtime {
  import opened Wrappers
  import opened Text

  // ---- Instants ----

  const DAY := 86_400_000_000  // microseconds
  const LAST_MOMENT := 3_652_059 * DAY - 1  // 9999-12-31T23:59:59.999999

  /** The calendar ends with the year 9999: 365 days a year and a leap day every fourth,
      except in centuries not divisible by 400. */
  lemma CalendarLength()
    ensures LAST_MOMENT + 1 == (9999 * 365 + 9999 / 4 - 9999 / 100 + 9999 / 400) * 24 * 60 * 60 * 1_000_000
  {
  }

  /** A wall-clock reading in microseconds since 0001-01-01T00:00 with its UTC offset. */
  datatype RawTimestamp = Timestamp(local: int, offset: int)
  type Timestamp = t: RawTimestamp | 0 <= t.local <= LAST_MOMENT && -DAY < t.offset < DAY
    witness Timestamp(0, 0)

  /** Conversion to UTC overflows when the instant leaves the calendar. */
  function UtcInstant(t: Timestamp): Option<int>
  {
    var instant := t.local - t.offset;
    if 0 <= instant <= LAST_MOMENT then Some(instant) else None
  }

  predicate Representable(t: Timestamp) { UtcInstant(t).Some? }

  /** A datetime supplied by a caller or read from text; `Foreign` stands for any
      other object. */
  datatype Moment = Aware(at: Timestamp) | Naive | Foreign

  /** The UTC instant of a moment, when it has one. */
  function MomentInstant(m: Moment): Option<int>
  {
    match m
    case Aware(t) => UtcInstant(t)
    case Naive => None
    case Foreign => None
  }

  // ---- Addresses and networks ----

  datatype Address = V4(bits: nat) | V6(bits: nat, scope: string)
  datatype Network = Network4(base: nat, hostBits: nat) | Network6(base: nat, hostBits: nat)

  function Pow2(n: nat): (p: nat)
    ensures p > 0
  {
    if n == 0 then 1 else 2 * Pow2(n - 1)
  }

  /** Strict network parsing rejects a base with host bits set. */
  predicate StrictNetwork(n: Network) { n.base % Pow2(n.hostBits) == 0 }

  predicate SameVersion(a: Address, n: Network) { a.V4? == n.Network4? }

  /** The mask clears the host bits of the address; a scope is ignored. */
  predicate InNetwork(a: Address, n: Network)
  {
    a.bits - a.bits % Pow2(n.hostBits) == n.base
  }

  /** Masking means membership in the block [base, base + 2^hostBits)
      (section 3.1 of RFC 4632, section 2.3 of RFC 4291). */
  lemma MaskingIsBlockMembership(a: Address, n: Network)
    requires StrictNetwork(n)
    ensures InNetwork(a, n) <==> n.base <= a.bits < n.base + Pow2(n.hostBits)
  {
    var size := Pow2(n.hostBits);
    var (q, k) := (a.bits / size, n.base / size);
    assert a.bits == q * size + a.bits % size;
    assert n.base == k * size;
    if n.base <= a.bits < n.base + size {
      BlockIndex(a.bits, k, size);
    }
  }

  lemma BlockIndex(x: nat, k: nat, size: nat)
    requires size > 0 && k * size <= x < k * size + size
    ensures x / size == k
  {
    var q := x / size;
    assert x == q * size + x % size;
    if q < k {
      Monotone(q + 1, k, size);
      assert false;
    } else if q > k {
      Monotone(k + 1, q, size);
      assert false;
    }
  }

  lemma Monotone(a: nat, b: nat, size: nat)
    requires a <= b
    ensures a * size <= b * size
  {
    assert b * size == a * size + (b - a) * size;
  }

  // ---- Library functions left open ----

  datatype RawHost = Host(
    isSpace: char -> bool,
    isAlpha: char -> bool,
    isAlnum: char -> bool,
    isDecimal: char -> bool,  // the regular expression class \d
    ipAddress: string -> Option<Address>,
    ipNetwork: string -> Option<Network>,
    isoDatetime: string -> Option<Moment>,
    integer: (string, nat) -> Option<int>)

  predicate IsAscii(c: char) { c as int < 128 }

  /** Unicode character classes agree with the ASCII ones on ASCII. */
  ghost predicate AsciiFaithful(h: RawHost)
  {
    forall c: char | IsAscii(c) ::
      && h.isAlpha(c) == IsLetter(c)
      && h.isAlnum(c) == (IsLetter(c) || IsDigit(c))
      && h.isDecimal(c) == IsDigit(c)
  }

  type Host = h: RawHost | AsciiFaithful(h)
    witness Host(c => c == ' ', c => IsLetter(c), c => IsLetter(c) || IsDigit(c), c => IsDigit(c),
                 _ => None, _ => None, _ => None, (_, _) => None)

  /** `str.strip` */
  function Strip(h: Host, s: string): string
  {
    StripRight(h, StripLeft(h, s))
  }

  function StripLeft(h: Host, s: string): string
  {
    if s != "" && h.isSpace(s[0]) then StripLeft(h, s[1..]) else s
  }

  function StripRight(h: Host, s: string): string
  {
    if s != "" && h.isSpace(s[|s| - 1]) then StripRight(h, s[..|s| - 1]) else s
  }
}
