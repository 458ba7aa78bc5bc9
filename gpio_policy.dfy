/**
 * Which GPIO pins the agent's tools may touch (main/tools_gpio.c).
 *
 * A pin list such as "1, 2, 43" (GPIO_ALLOWED_PINS_CSV) is read by a lenient
 * scanner: space, tab and comma separate entries, an entry strtol cannot
 * convert is skipped up to the next comma, and nothing ever fails. A
 * non-empty list is the whole policy; with an empty list every pin of the
 * inclusive range [GPIO_MIN_PIN, GPIO_MAX_PIN] is allowed. The configuration
 * constants are parameters here, as in the source's test hook.
 */
module GpioPolicy {
  import opened CText

  // ---------------------------------------------------------------------------
  // What the scanner reads

  /** One round of the scanner's outer loop: the list is exhausted, an entry
      was skipped, or a value was converted; `next` is where the cursor goes. */
  datatype Step = End | Skipped(next: nat) | Value(value: int, next: nat)

  /** A number reader in the shape of strtol: a conversion consumes at least
      one character and no more than the text holds. The scanner below is
      stated for any such reader and used with Strtol. */
  ghost predicate IsReader(read: string -> Conversion)
  {
    forall t :: read(t).Converted? ==> 0 < read(t).end <= |t|
  }

  /** p and y with a comma between them. */
  function CommaJoin(p: string, y: string): (t: string)
    ensures |t| == |p| + 1 + |y| && t[|p|] == ','
    ensures t[..|p|] == p && t[|p| + 1..] == y
  {
    p + [','] + y
  }

  /** A reader that a comma stops: what follows the comma never changes what
      it reads. */
  ghost predicate StopsAtComma(read: string -> Conversion)
  {
    forall p, y :: read(CommaJoin(p, y)) == read(p)
  }

  /** strtol stops at a comma. */
  lemma StrtolStopsAtComma()
    ensures StopsAtComma(Strtol)
  {
    forall p, y ensures Strtol(CommaJoin(p, y)) == Strtol(p) {
      StrtolStop(p, ',', y);
    }
  }

  /**
   * The round that starts with the cursor at i: skip separators; at the end
   * stop; otherwise read the entry there.
   */
  function StepAt(csv: string, i: nat, read: string -> Conversion): (step: Step)
    requires i <= |csv| && IsReader(read)
    ensures !step.End? ==> i < step.next <= |csv|
  {
    var sep := SkipFrom(csv, i, PinSeparator);
    if sep == |csv| then End else EntryAt(csv, sep, read)
  }

  /** At an entry, the reader either converts a value (and the cursor moves to
      where it stopped) or converts nothing (and the entry is skipped up to,
      not past, the next comma). */
  function EntryAt(csv: string, sep: nat, read: string -> Conversion): (step: Step)
    requires sep < |csv| && csv[sep] != ',' && IsReader(read)
    ensures !step.End? && sep < step.next <= |csv|
  {
    var r := read(csv[sep..]);
    if r.NoConversion? then Skipped(SkipFrom(csv, sep, NonComma))
    else Value(r.value, sep + r.end)
  }

  /** The values the scanner converts from position i on, in order. */
  function ValuesFrom(csv: string, i: nat, read: string -> Conversion): seq<int>
    requires i <= |csv| && IsReader(read)
    decreases |csv| - i
  {
    var step := StepAt(csv, i, read);
    if step.End? then []
    else if step.Skipped? then ValuesFrom(csv, step.next, read)
    else [step.value] + ValuesFrom(csv, step.next, read)
  }

  /** ValuesFrom, unfolded once at a known round. */
  lemma ValuesFromStep(csv: string, i: nat, read: string -> Conversion, s: Step)
    requires i <= |csv| && IsReader(read) && s == StepAt(csv, i, read)
    ensures s.End? ==> ValuesFrom(csv, i, read) == []
    ensures s.Skipped? ==> ValuesFrom(csv, i, read) == ValuesFrom(csv, s.next, read)
    ensures s.Value? ==> ValuesFrom(csv, i, read) == [s.value] + ValuesFrom(csv, s.next, read)
  {
  }

  /** The values the list scanner converts from csv with strtol, in order,
      duplicates kept. */
  function ListValues(csv: string): seq<int>
  {
    ValuesFrom(csv, 0, Strtol)
  }

  /**
   * The body of the scanner's outer loop (main/tools_gpio.c:30-43, repeated
   * at 174-186): skip separators, then let strtol convert a value or skip the
   * unconvertible entry up to the next comma.
   */
  method ScanStep(csv: string, cursor: nat) returns (step: Step)
    requires cursor <= |csv|
    ensures step == StepAt(csv, cursor, Strtol)
  {
    var sep := Skip(csv, cursor, PinSeparator);
    if sep == |csv| {
      return End;
    }
    var conversion := Strtol(csv[sep..]);
    if conversion.NoConversion? {
      var stop := Skip(csv, sep, NonComma);
      return Skipped(stop);
    }
    return Value(conversion.value, sep + conversion.end);
  }

  /**
   * gpio_pin_in_allowlist: whether pin is one of the values the scanner reads
   * from csv. The comparison is on the exact value, so an entry outside the
   * range of int never matches (see AsWrittenInAllowlist for the source's
   * cast).
   */
  method PinInAllowlist(pin: int, csv: string) returns (found: bool)
    ensures found <==> pin in ListValues(csv)
  {
    if csv == [] {
      return false;
    }
    var cursor := 0;
    while cursor < |csv|
      invariant cursor <= |csv|
      invariant pin in ListValues(csv) <==> pin in ValuesFrom(csv, cursor, Strtol)
      decreases |csv| - cursor
    {
      var step := ScanStep(csv, cursor);
      if step.End? {
        break;
      }
      if step.Value? && step.value == pin {
        return true;
      }
      cursor := step.next;
    }
    return false;
  }

  // ---------------------------------------------------------------------------
  // The policy

  /** gpio_pin_is_allowed / tools_gpio_test_pin_is_allowed: a non-empty list
      decides alone; otherwise the inclusive range decides. */
  predicate Permitted(pin: int, csv: string, minPin: int, maxPin: int)
  {
    if csv != [] then pin in ListValues(csv) else minPin <= pin <= maxPin
  }

  method PinIsAllowed(pin: int, csv: string, minPin: int, maxPin: int) returns (allowed: bool)
    ensures allowed <==> Permitted(pin, csv, minPin, maxPin)
  {
    if csv != [] {
      allowed := PinInAllowlist(pin, csv);
      return;
    }
    return pin >= minPin && pin <= maxPin;
  }

  /** A non-empty list overrides the range: a listed pin is allowed wherever
      it lies, an unlisted pin is denied even inside the range. This restates
      the host test's cases from the definition of Permitted; ListedPinsAllowed
      is the proof that a printed list allows exactly its pins. */
  lemma ListOverridesRange(pin: int, csv: string, minPin: int, maxPin: int)
    requires csv != []
    ensures Permitted(pin, csv, minPin, maxPin) <==> pin in ListValues(csv)
    ensures minPin <= pin <= maxPin && pin !in ListValues(csv) ==> !Permitted(pin, csv, minPin, maxPin)
  {
  }

  /** Without a list, the range is inclusive at both ends and nothing outside
      it is allowed: the host test's range cases, read off the definition of
      Permitted. */
  lemma RangeIsInclusive(pin: int, minPin: int, maxPin: int)
    ensures Permitted(pin, [], minPin, maxPin) <==> minPin <= pin <= maxPin
    ensures minPin <= maxPin ==> Permitted(minPin, [], minPin, maxPin) && Permitted(maxPin, [], minPin, maxPin)
    ensures !Permitted(minPin - 1, [], minPin, maxPin) && !Permitted(maxPin + 1, [], minPin, maxPin)
  {
  }

  // ---------------------------------------------------------------------------
  // How lists compose

  /** The scanner's rounds with positions moved by d. */
  function Shifted(s: Step, d: nat): Step
  {
    if s.End? then End
    else if s.Skipped? then Skipped(d + s.next)
    else Value(s.value, d + s.next)
  }

  /** Text in front of z shifts every round of the scanner over z. */
  lemma StepShift(t: string, d: nat, z: string, j: nat, read: string -> Conversion)
    requires SuffixAt(t, d, z) && j <= |z| && IsReader(read)
    ensures StepAt(t, d + j, read) == Shifted(StepAt(z, j, read), d)
  {
    SkipShift(t, d, z, j, PinSeparator);
    var sep := SkipFrom(z, j, PinSeparator);
    if sep < |z| {
      EntryShift(t, d, z, sep, read);
    }
  }

  lemma EntryShift(t: string, d: nat, z: string, sep: nat, read: string -> Conversion)
    requires SuffixAt(t, d, z) && sep < |z| && z[sep] != ',' && IsReader(read)
    ensures t[d + sep] == z[sep]
    ensures EntryAt(t, d + sep, read) == Shifted(EntryAt(z, sep, read), d)
  {
    assert t[d + sep] == z[sep];
    assert t[d + sep..] == z[sep..] by {
      forall i | 0 <= i < |z| - sep
        ensures t[d + sep..][i] == z[sep..][i]
      {
        assert t[d + (sep + i)] == z[sep + i];
      }
    }
    SkipShift(t, d, z, sep, NonComma);
  }

  /** Text in front of z does not change what the scanner reads from z. */
  lemma {:induction false} ValuesShift(t: string, d: nat, z: string, j: nat, read: string -> Conversion)
    requires SuffixAt(t, d, z) && j <= |z| && IsReader(read)
    ensures ValuesFrom(t, d + j, read) == ValuesFrom(z, j, read)
    decreases |z| - j
  {
    var s := StepAt(z, j, read);
    if !s.End? {
      ValuesShift(t, d, z, s.next, read);
    }
    ValuesShiftRound(t, d, z, j, read);
  }

  /** One round of ValuesShift: if the scans agree after the round, they
      agree before it. */
  lemma ValuesShiftRound(t: string, d: nat, z: string, j: nat, read: string -> Conversion)
    requires SuffixAt(t, d, z) && j <= |z| && IsReader(read)
    requires var s := StepAt(z, j, read);
      !s.End? ==> ValuesFrom(t, d + s.next, read) == ValuesFrom(z, s.next, read)
    ensures ValuesFrom(t, d + j, read) == ValuesFrom(z, j, read)
  {
    var s := StepAt(z, j, read);
    StepShift(t, d, z, j, read);
    ValuesFromStep(z, j, read, s);
    ValuesFromStep(t, d + j, read, Shifted(s, d));
  }

  /** A skip over a class without the comma stops at a comma that follows x. */
  lemma {:induction false} SkipCommaStop(x: string, y: string, i: nat, cls: CharClass)
    requires i <= |x| && !InClass(',', cls)
    ensures SkipFrom(x + [','] + y, i, cls) == SkipFrom(x, i, cls)
    decreases |x| - i
  {
    var t := x + [','] + y;
    if i < |x| {
      assert t[i] == x[i];
      SkipCommaStop(x, y, i + 1, cls);
    } else {
      assert t[i] == ',';
    }
  }

  /** Skipping separators in x + "," + y: it stops where it stops in x, or
      runs on through the comma. */
  lemma {:induction false} SkipSeparatorsComma(x: string, y: string, i: nat)
    requires i <= |x|
    ensures var t := x + [','] + y;
      if SkipFrom(x, i, PinSeparator) < |x|
      then SkipFrom(t, i, PinSeparator) == SkipFrom(x, i, PinSeparator)
      else SkipFrom(t, i, PinSeparator) == SkipFrom(t, |x| + 1, PinSeparator)
    decreases |x| - i
  {
    var t := x + [','] + y;
    if i < |x| {
      assert t[i] == x[i];
      SkipSeparatorsComma(x, y, i + 1);
    } else {
      assert t[i] == ',';
    }
  }

  /** A round that finds an entry in x reads it the same way when a comma and
      more text follow x. */
  lemma StepComma(x: string, y: string, i: nat, read: string -> Conversion)
    requires i <= |x| && IsReader(read) && StopsAtComma(read)
    requires !StepAt(x, i, read).End?
    ensures StepAt(x + [','] + y, i, read) == StepAt(x, i, read)
  {
    var t := x + [','] + y;
    SkipSeparatorsComma(x, y, i);
    var sep := SkipFrom(x, i, PinSeparator);
    assert t[sep] == x[sep];
    assert t[sep..] == CommaJoin(x[sep..], y);
    assert read(t[sep..]) == read(x[sep..]);
    SkipCommaStop(x, y, sep, NonComma);
  }

  /** When x holds no further entry, the scanner runs on through the comma
      and reads y as if on its own. */
  lemma ValuesCommaAtEnd(x: string, y: string, i: nat, read: string -> Conversion)
    requires i <= |x| && IsReader(read) && StepAt(x, i, read).End?
    ensures ValuesFrom(x + [','] + y, i, read) == ValuesFrom(y, 0, read)
  {
    var t := x + [','] + y;
    SkipSeparatorsComma(x, y, i);
    var s := StepAt(t, i, read);
    assert s == StepAt(t, |x| + 1, read);
    ValuesFromStep(t, i, read, s);
    ValuesFromStep(t, |x| + 1, read, s);
    assert SuffixAt(t, |x| + 1, y);
    ValuesShift(t, |x| + 1, y, 0, read);
  }

  /** A round that reads an entry of x reads the same entry of x + "," + y
      and moves on to the same position. */
  lemma ValuesCommaEntry(x: string, y: string, i: nat, read: string -> Conversion)
    requires i <= |x| && IsReader(read) && StopsAtComma(read)
    requires !StepAt(x, i, read).End?
    ensures var s := StepAt(x, i, read); var t := x + [','] + y;
      && s.next <= |x|
      && ValuesFrom(t, i, read) == (if s.Value? then [s.value] else []) + ValuesFrom(t, s.next, read)
      && ValuesFrom(x, i, read) == (if s.Value? then [s.value] else []) + ValuesFrom(x, s.next, read)
  {
    var s := StepAt(x, i, read);
    StepComma(x, y, i, read);
    ValuesFromStep(x, i, read, s);
    ValuesFromStep(x + [','] + y, i, read, s);
  }

  /** Entries do not run into each other across a comma. */
  lemma {:induction false} ValuesComma(x: string, y: string, i: nat, read: string -> Conversion)
    requires i <= |x| && IsReader(read) && StopsAtComma(read)
    ensures ValuesFrom(x + [','] + y, i, read) == ValuesFrom(x, i, read) + ValuesFrom(y, 0, read)
    decreases |x| - i
  {
    var s := StepAt(x, i, read);
    if s.End? {
      ValuesFromStep(x, i, read, s);
      ValuesCommaAtEnd(x, y, i, read);
    } else {
      ValuesCommaEntry(x, y, i, read);
      ValuesComma(x, y, s.next, read);
      ConcatAssoc(if s.Value? then [s.value] else [], ValuesFrom(x, s.next, read), ValuesFrom(y, 0, read));
    }
  }


  /** The values of x + "," + y are those of x followed by those of y. */
  lemma ListValuesComma(x: string, y: string)
    ensures ListValues(x + [','] + y) == ListValues(x) + ListValues(y)
  {
    StrtolStopsAtComma();
    ValuesComma(x, y, 0, Strtol);
  }

  /** A text the reader consumes whole, starting at its first character,
      holds exactly that one value. */
  lemma ValuesOfWholeEntry(d: string, v: int, read: string -> Conversion)
    requires IsReader(read) && d != [] && !InClass(d[0], PinSeparator)
    requires read(d) == Converted(v, |d|)
    ensures ValuesFrom(d, 0, read) == [v]
  {
    assert SkipFrom(d, 0, PinSeparator) == 0;
    assert d[0..] == d;
    var s := StepAt(d, 0, read);
    assert s == Value(v, |d|);
    ValuesFromStep(d, 0, read, s);
    ValuesFromStep(d, |d|, read, StepAt(d, |d|, read));
  }

  /** A text that holds one entry between separators yields the reader's
      value for it, or nothing when the reader converts nothing. */
  lemma ValuesOfPaddedEntry(z: string, k: nat, read: string -> Conversion)
    requires IsReader(read) && k < |z| && SkipFrom(z, 0, PinSeparator) == k
    requires read(z[k..]).Converted? ==> SkipFrom(z, k + read(z[k..]).end, PinSeparator) == |z|
    requires read(z[k..]).NoConversion? ==> SkipFrom(z, k, NonComma) == |z|
    ensures ValuesFrom(z, 0, read) == if read(z[k..]).Converted? then [read(z[k..]).value] else []
  {
    var s := StepAt(z, 0, read);
    ValuesFromStep(z, 0, read, s);
    ValuesFromStep(z, s.next, read, StepAt(z, s.next, read));
  }

  /** "%d" of v, then rest. */
  function DecimalThen(v: int, rest: string): string
  {
    IntToDecimal(v) + rest
  }

  /** A reader that reads every "%d" numeral back whole, up to whatever
      non-digit follows it. */
  ghost predicate ReadsDecimals(read: string -> Conversion)
  {
    forall v, rest :: rest == [] || !IsDigit(rest[0]) ==>
      read(DecimalThen(v, rest)) == Converted(v, |IntToDecimal(v)|)
  }

  /** strtol reads back what "%d" prints. */
  lemma StrtolReadsDecimals()
    ensures ReadsDecimals(Strtol)
  {
    forall v, rest | rest == [] || !IsDigit(rest[0])
      ensures Strtol(DecimalThen(v, rest)) == Converted(v, |IntToDecimal(v)|)
    {
      StrtolIntToDecimal(v, rest);
    }
  }

  /** "%d" of a value, read as a list, is that one value. */
  lemma ValuesOfDecimal(v: int, read: string -> Conversion)
    requires IsReader(read) && ReadsDecimals(read)
    ensures ValuesFrom(IntToDecimal(v), 0, read) == [v]
  {
    DecimalShape(v);
    assert DecimalThen(v, []) == IntToDecimal(v);
    ValuesOfWholeEntry(IntToDecimal(v), v, read);
  }

  /** The decimal numerals of vs. */
  function Numerals(vs: seq<int>): (ns: seq<string>)
    ensures |ns| == |vs|
    ensures forall k :: 0 <= k < |vs| ==> ns[k] == IntToDecimal(vs[k])
  {
    if vs == [] then [] else [IntToDecimal(vs[0])] + Numerals(vs[1..])
  }

  /** Numerals joined by commas read back as exactly those values, in order,
      duplicates and all. */
  lemma {:induction false} ValuesRoundTrip(vs: seq<int>, read: string -> Conversion)
    requires IsReader(read) && StopsAtComma(read) && ReadsDecimals(read)
    ensures ValuesFrom(JoinWith(Numerals(vs), [',']), 0, read) == vs
  {
    if |vs| == 1 {
      ValuesOfDecimal(vs[0], read);
    } else if |vs| > 1 {
      var ns := Numerals(vs);
      assert ns[1..] == Numerals(vs[1..]);
      var rest := JoinWith(ns[1..], [',']);
      assert JoinWith(ns, [',']) == ns[0] + [','] + rest;
      ValuesComma(ns[0], rest, 0, read);
      ValuesOfDecimal(vs[0], read);
      ValuesRoundTrip(vs[1..], read);
      assert [vs[0]] + vs[1..] == vs;
    }
  }

  /** "%d" of a value, read as a list, is that one value. */
  lemma ListValuesOfDecimal(v: int)
    ensures ListValues(IntToDecimal(v)) == [v]
  {
    StrtolReadsDecimals();
    ValuesOfDecimal(v, Strtol);
  }

  /** A comma-separated list of numerals reads back as exactly those values. */
  lemma ListValuesRoundTrip(vs: seq<int>)
    ensures ListValues(JoinWith(Numerals(vs), [','])) == vs
  {
    StrtolReadsDecimals();
    StrtolStopsAtComma();
    ValuesRoundTrip(vs, Strtol);
  }

  /** With a list of numerals, the allowed pins are exactly the listed ones,
      whatever the range. */
  lemma ListedPinsAllowed(vs: seq<int>, pin: int, minPin: int, maxPin: int)
    requires vs != []
    ensures Permitted(pin, JoinWith(Numerals(vs), [',']), minPin, maxPin) <==> pin in vs
  {
    ListValuesRoundTrip(vs);
    var ns := Numerals(vs);
    if |vs| == 1 {
      DecimalShape(vs[0]);
    } else {
      assert JoinWith(ns, [',']) == ns[0] + [','] + JoinWith(ns[1..], [',']);
    }
  }

  // ---------------------------------------------------------------------------
  // Pins read_all reports

  /** The values of vs that fit a C int, in order. */
  function Int32Values(vs: seq<int>): (ps: seq<int>)
    ensures forall p :: p in ps <==> p in vs && InInt32(p)
    ensures |ps| <= |vs|
  {
    if vs == [] then []
    else if InInt32(vs[0]) then [vs[0]] + Int32Values(vs[1..])
    else Int32Values(vs[1..])
  }

  /** lo, lo + 1, ..., hi (empty when hi < lo). */
  function PinRange(lo: int, hi: int): (ps: seq<int>)
    ensures |ps| == if hi < lo then 0 else hi - lo + 1
    ensures forall k :: 0 <= k < |ps| ==> ps[k] == lo + k
    decreases hi - lo
  {
    if hi < lo then [] else PinRange(lo, hi - 1) + [hi]
  }

  /** The pins tools_gpio_read_all_handler reports, in order: the list values
      that fit an int (main/tools_gpio.c:167-199), or the range ascending
      (main/tools_gpio.c:200-209). */
  function ReadAllPins(csv: string, minPin: int, maxPin: int): seq<int>
  {
    if csv != [] then Int32Values(ListValues(csv)) else PinRange(minPin, maxPin)
  }

  /** The allow check and read_all agree: a pin (a C int) is reported by
      read_all exactly when the write and read tools may touch it. */
  lemma ReportedIffPermitted(pin: int, csv: string, minPin: int, maxPin: int)
    requires InInt32(pin)
    ensures pin in ReadAllPins(csv, minPin, maxPin) <==> Permitted(pin, csv, minPin, maxPin)
  {
    if csv == [] {
      var ps := PinRange(minPin, maxPin);
      if minPin <= pin <= maxPin {
        assert ps[pin - minPin] == pin;
      }
    }
  }

  // ---------------------------------------------------------------------------
  // The source's cast in gpio_pin_in_allowlist

  /** strtol's result type on the host build: a 64-bit long, clamped. */
  function ClampToLong(v: int): (l: int)
    ensures InInt64(l)
    ensures InInt64(v) ==> l == v
  {
    if v < Int64Min then Int64Min else if v > Int64Max then Int64Max else v
  }

  /** The `(int)` conversion of a long as the compilers of the source's
      targets perform it: keep the low 32 bits, two's complement. */
  function IntCast(l: int): (i: int)
    ensures InInt32(i)
    ensures InInt32(l) ==> i == l
  {
    var low := l % 0x1_0000_0000;
    if low > Int32Max then low - 0x1_0000_0000 else low
  }

  /** gpio_pin_in_allowlist as written (main/tools_gpio.c:45): a value
      matches when its clamped, cast form equals pin. */
  predicate AsWrittenInAllowlist(pin: int, csv: string)
  {
    exists k :: 0 <= k < |ListValues(csv)| && IntCast(ClampToLong(ListValues(csv)[k])) == pin
  }

  /**
   * The cast lets an entry outside the range of int stand for a pin it does
   * not name: "4294967297" admits pin 1 under the code as written, while the
   * exact comparison and read_all (which skips such entries,
   * main/tools_gpio.c:188-191) do not list pin 1.
   */
  lemma CastAdmitsUnlistedPin(v: int, minPin: int, maxPin: int)
    requires !InInt32(v)
    ensures var pin := IntCast(ClampToLong(v));
      AsWrittenInAllowlist(pin, IntToDecimal(v))
      && !Permitted(pin, IntToDecimal(v), minPin, maxPin)
      && pin !in ReadAllPins(IntToDecimal(v), minPin, maxPin)
  {
    ListValuesOfDecimal(v);
    DecimalShape(v);
    var vs := ListValues(IntToDecimal(v));
    assert vs[0] == v;
  }

  /** The instance named above. */
  lemma CastAdmitsPinOne(v: int)
    requires v == 0x1_0000_0001
    ensures IntCast(ClampToLong(v)) == 1
  {
  }

  /** On values that fit an int, the cast is harmless: the as-written check
      and the exact one agree. */
  lemma AsWrittenAgreesInRange(pin: int, csv: string)
    requires InInt32(pin)
    requires forall k :: 0 <= k < |ListValues(csv)| ==> InInt32(ListValues(csv)[k])
    ensures AsWrittenInAllowlist(pin, csv) <==> pin in ListValues(csv)
  {
    var vs := ListValues(csv);
    if pin in vs {
      var k :| 0 <= k < |vs| && vs[k] == pin;
      assert IntCast(ClampToLong(vs[k])) == pin;
    }
  }

  // ---------------------------------------------------------------------------
  // The host tests' lists

  /** Separators alone hold no value. */
  lemma ValuesOfBlank(z: string, read: string -> Conversion)
    requires IsReader(read)
    requires forall k :: 0 <= k < |z| ==> InClass(z[k], PinSeparator)
    ensures ValuesFrom(z, 0, read) == []
  {
    SkipOver(z, 0, |z|, PinSeparator);
    ValuesFromStep(z, 0, read, End);
  }

  /** A numeral with spaces around it reads as its value. */
  lemma ValuesOfSpacedNumeral(z: string, p: string, v: int, q: string, read: string -> Conversion)
    requires IsReader(read) && ReadsDecimals(read)
    requires z == p + IntToDecimal(v) + q
    requires forall k :: 0 <= k < |p| ==> p[k] == ' '
    requires forall k :: 0 <= k < |q| ==> q[k] == ' '
    ensures ValuesFrom(z, 0, read) == [v]
  {
    var d := IntToDecimal(v);
    DecimalShape(v);
    assert z[|p|] == d[0];
    assert forall k :: 0 <= k < |p| ==> z[k] == p[k];
    SkipOver(z, 0, |p|, PinSeparator);
    assert z[|p|..] == d + q;
    assert DecimalThen(v, q) == d + q;
    assert forall k :: |p| + |d| <= k < |z| ==> z[k] == q[k - |p| - |d|];
    SkipOver(z, |p| + |d|, |z|, PinSeparator);
    ValuesOfPaddedEntry(z, |p|, read);
  }

  /** A word the reader cannot convert, after a space, holds no value: the
      entry is skipped. */
  lemma ValuesOfSpacedWord(z: string, w: string, read: string -> Conversion)
    requires IsReader(read) && z == " " + w && w != [] && read(w).NoConversion?
    requires !IsSpace(w[0]) && w[0] != ','
    requires forall k :: 0 <= k < |w| ==> w[k] != ','
    ensures ValuesFrom(z, 0, read) == []
  {
    assert z[1..] == w;
    SkipOver(z, 0, 1, PinSeparator);
    assert forall k :: 1 <= k < |z| ==> z[k] == w[k - 1];
    SkipOver(z, 1, |z|, NonComma);
    ValuesOfPaddedEntry(z, 1, read);
  }

  /** The host test's list is its five entries joined by commas. */
  lemma SpacedListShape(x: string, w: string, y: string, z: string)
    ensures " " + x + ", " + w + ", " + y + " , , " + z
      == (" " + x) + [','] + ((" " + w) + [','] + ((" " + y + " ") + [',']
        + (" " + [','] + (" " + z))))
  {
  }

  /** The tail " 3 , , 44" of the host test's list, for any two numbers. */
  lemma SpacedTail(b: int, c: int, read: string -> Conversion)
    requires IsReader(read) && StopsAtComma(read) && ReadsDecimals(read)
    ensures ValuesFrom((" " + IntToDecimal(b) + " ") + [','] + (" " + [','] + (" " + IntToDecimal(c))), 0, read) == [b, c]
  {
    var e3, e4, e5 := " " + IntToDecimal(b) + " ", " ", " " + IntToDecimal(c);
    ValuesComma(e3, e4 + [','] + e5, 0, read);
    ValuesComma(e4, e5, 0, read);
    ValuesOfSpacedNumeral(e3, " ", b, " ", read);
    ValuesOfBlank(e4, read);
    ValuesOfSpacedNumeral(e5, " ", c, "", read);
  }

  /** An entry holding only a word the reader cannot convert adds nothing
      to what follows it. */
  lemma SpacedWordThen(w: string, t: string, read: string -> Conversion)
    requires IsReader(read) && StopsAtComma(read)
    requires w != [] && !IsSpace(w[0]) && read(w).NoConversion?
    requires forall k :: 0 <= k < |w| ==> w[k] != ','
    ensures ValuesFrom((" " + w) + [','] + t, 0, read) == ValuesFrom(t, 0, read)
  {
    ValuesComma(" " + w, t, 0, read);
    ValuesOfSpacedWord(" " + w, w, read);
  }

  /** The head " 1, two," of the host test's list, for any number and word. */
  lemma SpacedHead(a: int, w: string, t: string, read: string -> Conversion)
    requires IsReader(read) && StopsAtComma(read) && ReadsDecimals(read)
    requires w != [] && !IsSpace(w[0]) && read(w).NoConversion?
    requires forall k :: 0 <= k < |w| ==> w[k] != ','
    ensures ValuesFrom((" " + IntToDecimal(a)) + [','] + ((" " + w) + [','] + t), 0, read)
      == [a] + ValuesFrom(t, 0, read)
  {
    var e1 := " " + IntToDecimal(a);
    ValuesComma(e1, (" " + w) + [','] + t, 0, read);
    ValuesOfSpacedNumeral(e1, " ", a, "", read);
    SpacedWordThen(w, t, read);
  }

  /** The host test's list, for any reader with the properties of strtol. */
  lemma SpacedValues(a: int, b: int, c: int, w: string, read: string -> Conversion)
    requires IsReader(read) && StopsAtComma(read) && ReadsDecimals(read)
    requires w != [] && !IsSpace(w[0]) && read(w).NoConversion?
    requires forall k :: 0 <= k < |w| ==> w[k] != ','
    ensures ValuesFrom(" " + IntToDecimal(a) + ", " + w + ", " + IntToDecimal(b) + " , , " + IntToDecimal(c), 0, read)
      == [a, b, c]
  {
    var t := (" " + IntToDecimal(b) + " ") + [','] + (" " + [','] + (" " + IntToDecimal(c)));
    SpacedListShape(IntToDecimal(a), w, IntToDecimal(b), IntToDecimal(c));
    SpacedHead(a, w, t, read);
    SpacedTail(b, c, read);
  }

  /**
   * The host test's list " 1, two, 3 , , 44", for any three numbers and any
   * word strtol cannot read: the numbers are read in order, the word and the
   * empty entry are skipped, and spaces around an entry do not matter.
   */
  lemma SpacedListWithWord(a: int, b: int, c: int, w: string)
    requires w != [] && !IsSpace(w[0]) && !IsDigit(w[0]) && w[0] != '+' && w[0] != '-'
    requires forall k :: 0 <= k < |w| ==> w[k] != ','
    ensures ListValues(" " + IntToDecimal(a) + ", " + w + ", " + IntToDecimal(b) + " , , " + IntToDecimal(c))
      == [a, b, c]
  {
    StrtolStopsAtComma();
    StrtolReadsDecimals();
    StrtolNoNumber(w);
    SpacedValues(a, b, c, w, Strtol);
  }

  /** The host test's policy (" 1, two, 3 , , 44" allows 1, 3 and 44 and
      denies 2), for any three numbers and word: exactly the three numbers
      are allowed, whatever the range. */
  lemma SpacedListPolicy(a: int, b: int, c: int, w: string, pin: int, minPin: int, maxPin: int)
    requires w != [] && !IsSpace(w[0]) && !IsDigit(w[0]) && w[0] != '+' && w[0] != '-'
    requires forall k :: 0 <= k < |w| ==> w[k] != ','
    ensures var s := " " + IntToDecimal(a) + ", " + w + ", " + IntToDecimal(b) + " , , " + IntToDecimal(c);
      Permitted(pin, s, minPin, maxPin) <==> pin == a || pin == b || pin == c
  {
    SpacedListWithWord(a, b, c, w);
  }
}
