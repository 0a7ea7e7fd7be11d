/** The command line of the flasher: parse_arg (main.c:224-276).

    The words are argv[0..argc), each without its terminating NUL. */
module Arguments {
  import opened Wrappers
  import opened Bytes

  const QuantFlash := 256  // QUANT_FLASH: the largest chunk, and the default one
  const ErrArgc := 1       // ERR_ARGC

  /** FW_TYPE_t, extended by the configuration region that follows FW_APP. */
  datatype FwSel = Preboot | Boot | App | Cfg

  /** The firmware index a selector is sent as (wValue of the requests). */
  function SelIndex(sel: FwSel): nat
  {
    match sel
    case Preboot => 0
    case Boot => 1
    case App => 2
    case Cfg => 3
  }

  /** The cfg struct (main.c:214-222). */
  datatype Config = Config(
    write: bool,
    sel: FwSel,
    fileName: seq<byte>,
    devName: seq<byte>,
    subName: Option<seq<byte>>,
    chunk: nat)

  /** The one-character words the source compares with. */
  function Word(c: char): seq<byte>
    requires c as int < 0x100
  {
    [c as int]
  }

  /** isspace in the C locale. */
  predicate IsSpace(b: byte)
  {
    b == ' ' as int || (0x09 <= b <= 0x0D)
  }

  predicate IsDigit(b: byte)
  {
    '0' as int <= b <= '9' as int
  }

  /** The longest prefix of s made of decimal digits. */
  function DigitRun(s: seq<byte>): (d: seq<byte>)
    ensures |d| <= |s| && d == s[..|d|]
    ensures forall i :: 0 <= i < |d| ==> IsDigit(d[i])
    ensures |d| < |s| ==> !IsDigit(s[|d|])
  {
    if s == [] || !IsDigit(s[0]) then [] else [s[0]] + DigitRun(s[1..])
  }

  /** The number a run of decimal digits spells. */
  function DigitsValue(d: seq<byte>): nat
    requires forall i :: 0 <= i < |d| ==> IsDigit(d[i])
  {
    if d == [] then 0
    else
      assert IsDigit(d[|d| - 1]);
      DigitsValue(d[..|d| - 1]) * 10 + (d[|d| - 1] as int - '0' as int)
  }

  /** atoi: leading white space, an optional sign, then decimal digits up to the first
      other byte; 0 when there are none. */
  function Atoi(s: seq<byte>): int
    decreases |s|
  {
    if s != [] && IsSpace(s[0]) then Atoi(s[1..])
    else if s != [] && s[0] == '-' as int then -(DigitsValue(DigitRun(s[1..])) as int)
    else if s != [] && s[0] == '+' as int then DigitsValue(DigitRun(s[1..]))
    else DigitsValue(DigitRun(s))
  }

  /** The decimal spelling of n. */
  function Decimal(n: nat): (d: seq<byte>)
    ensures 1 <= |d| && forall i :: 0 <= i < |d| ==> IsDigit(d[i])
  {
    if n < 10 then [n + '0' as int] else Decimal(n / 10) + [n % 10 + '0' as int]
  }

  /** atoi reads back the decimal spelling of any number. */
  lemma {:induction false} AtoiOfDecimal(n: nat)
    ensures Atoi(Decimal(n)) == n
  {
    DecimalValue(n);
    DigitRunOfDigits(Decimal(n));
  }

  lemma {:induction false} DecimalValue(n: nat)
    ensures DigitsValue(Decimal(n)) == n
  {
    if n >= 10 {
      DecimalValue(n / 10);
      var d := Decimal(n);
      assert d[..|d| - 1] == Decimal(n / 10);
    }
  }

  lemma {:induction false} DigitRunOfDigits(d: seq<byte>)
    requires forall i :: 0 <= i < |d| ==> IsDigit(d[i])
    ensures DigitRun(d) == d
  {
    if d != [] {
      DigitRunOfDigits(d[1..]);
    }
  }

  /** The chunk size after the (uint32_t) cast of atoi's result (main.c:263). */
  function ChunkArg(argv: seq<seq<byte>>): nat
  {
    if |argv| == 7 then Atoi(argv[6]) % 0x1_0000_0000 else QuantFlash
  }

  /** The selector a word names. */
  function SelWord(w: seq<byte>): Option<FwSel>
  {
    if w == Word('p') then Some(Preboot)
    else if w == Word('b') then Some(Boot)
    else if w == Word('a') then Some(App)
    else if w == Word('c') then Some(Cfg)
    else None
  }

  /** parse_arg (main.c:224-276): the configuration, or None where the source returns
      ERR_ARGC. */
  function ParseArg(argv: seq<seq<byte>>): (r: Option<Config>)
    ensures r.Some? <==>
      && |argv| in {5, 6, 7}
      && argv[1] in {Word('w'), Word('r')}
      && SelWord(argv[2]).Some?
      && !(argv[1] == Word('w') && argv[2] == Word('p'))
      && 1 <= ChunkArg(argv) <= QuantFlash
    ensures r.Some? ==>
      && r.value.write == (argv[1] == Word('w'))
      && r.value.sel == SelWord(argv[2]).value
      && r.value.fileName == argv[3] && r.value.devName == argv[4]
      && (r.value.subName.Some? <==> |argv| >= 6)
      && (|argv| >= 6 ==> r.value.subName.value == argv[5])
      && r.value.chunk == ChunkArg(argv)
      && 1 <= r.value.chunk <= QuantFlash
      && !(r.value.write && r.value.sel == Preboot)
  {
    if |argv| != 5 && |argv| != 6 && |argv| != 7 then None
    else if argv[1] != Word('w') && argv[1] != Word('r') then None
    else
      var write := argv[1] == Word('w');
      var s := SelWord(argv[2]);
      if s.None? then None
      else if s.value == Preboot && write then None
      else
        var subName := if |argv| >= 6 then Some(argv[5]) else None;
        var chunk := ChunkArg(argv);
        if chunk < 1 then None
        else if chunk > QuantFlash then None
        else Some(Config(write, s.value, argv[3], argv[4], subName, chunk))
  }

  /** With a valid operation and selector, the chunk word may be any decimal spelling
      of 1 to 256. */
  lemma ChunkWordAccepted(argv: seq<seq<byte>>, n: nat)
    requires |argv| == 7 && argv[6] == Decimal(n) && 1 <= n <= QuantFlash
    requires argv[1] in {Word('w'), Word('r')} && SelWord(argv[2]).Some?
    requires !(argv[1] == Word('w') && argv[2] == Word('p'))
    ensures ParseArg(argv).Some? && ParseArg(argv).value.chunk == n
  {
    AtoiOfDecimal(n);
  }
}
