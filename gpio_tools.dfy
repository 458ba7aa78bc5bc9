/**
 * The GPIO tools the agent calls (main/tools_gpio.c): gpio_write, gpio_read,
 * gpio_read_all and delay.
 *
 * The driver (gpio_reset_pin, gpio_set_direction, gpio_set_level,
 * gpio_get_level) is outside the model: a pin's input level comes from a
 * `level` oracle, and the write and read tools return the driver calls they
 * would make, so that "a denied pin is never touched" can be stated. JSON
 * fields arrive as Option<int> (None when missing or not a number).
 */
module GpioTools {
  import opened Wrappers
  import opened CText
  import opened GpioPolicy

  // ---------------------------------------------------------------------------
  // Driver calls and replies

  datatype Direction = Input | Output

  /** A call into the GPIO driver. */
  datatype GpioCall =
    | Reset(pin: int)
    | SetDirection(pin: int, direction: Direction)
    | SetLevel(pin: int, high: bool)
    | GetLevel(pin: int)

  /** How the tools print a level. */
  function LevelWord(high: bool): (w: string)
    ensures w == "HIGH" || w == "LOW"
  {
    if high then "HIGH" else "LOW"
  }

  const PinRequired: string := "Error: 'pin' required (number)"
  const StateRequired: string := "Error: 'state' required (0 or 1)"

  /** Why a pin was refused: with a list configured the pin is named, without
      one the range is quoted (main/tools_gpio.c:101-107). */
  function DenialMessage(pin: int, csv: string, minPin: int, maxPin: int): (m: string)
    ensures IsError(m)
  {
    if csv != [] then "Error: pin " + IntToDecimal(pin) + " is not in allowed list"
    else "Error: pin must be " + IntToDecimal(minPin) + "-" + IntToDecimal(maxPin)
  }

  /** Every refusal the tools write starts with "Error: ". */
  predicate IsError(m: string)
  {
    |m| >= 7 && m[..7] == "Error: "
  }

  // ---------------------------------------------------------------------------
  // gpio_write and gpio_read

  /**
   * tools_gpio_write_handler: with both fields present and the pin allowed,
   * reset the pin, make it an output and drive it high exactly when state is
   * non-zero; otherwise refuse with a message and touch nothing.
   */
  method WriteHandler(pin: Option<int>, state: Option<int>, csv: string, minPin: int, maxPin: int)
    returns (ok: bool, text: string, calls: seq<GpioCall>)
    ensures ok <==> pin.Some? && state.Some? && Permitted(pin.value, csv, minPin, maxPin)
    ensures !ok ==> calls == [] && IsError(text)
    ensures pin.None? ==> text == PinRequired
    ensures pin.Some? && state.None? ==> text == StateRequired
    ensures pin.Some? && state.Some? && !ok ==> text == DenialMessage(pin.value, csv, minPin, maxPin)
    ensures ok ==> var p := pin.value; var high := state.value != 0;
      && calls == [Reset(p), SetDirection(p, Output), SetLevel(p, high)]
      && text == "Pin " + IntToDecimal(p) + " → " + LevelWord(high)
  {
    if pin.None? {
      return false, PinRequired, [];
    }
    if state.None? {
      return false, StateRequired, [];
    }
    var p := pin.value;
    var allowed := PinIsAllowed(p, csv, minPin, maxPin);
    if !allowed {
      return false, DenialMessage(p, csv, minPin, maxPin), [];
    }
    var high := state.value != 0;
    calls := [Reset(p), SetDirection(p, Output), SetLevel(p, high)];
    text := "Pin " + IntToDecimal(p) + " → " + LevelWord(high);
    ok := true;
  }

  /**
   * tools_gpio_read_handler: with the pin present and allowed, reset it, make
   * it an input and report its level; otherwise refuse and touch nothing.
   */
  method ReadHandler(pin: Option<int>, csv: string, minPin: int, maxPin: int, level: int -> bool)
    returns (ok: bool, text: string, calls: seq<GpioCall>)
    ensures ok <==> pin.Some? && Permitted(pin.value, csv, minPin, maxPin)
    ensures !ok ==> calls == [] && IsError(text)
    ensures pin.None? ==> text == PinRequired
    ensures pin.Some? && !ok ==> text == DenialMessage(pin.value, csv, minPin, maxPin)
    ensures ok ==> var p := pin.value;
      && calls == [Reset(p), SetDirection(p, Input), GetLevel(p)]
      && text == "Pin " + IntToDecimal(p) + " = " + LevelWord(level(p))
  {
    if pin.None? {
      return false, PinRequired, [];
    }
    var p := pin.value;
    var allowed := PinIsAllowed(p, csv, minPin, maxPin);
    if !allowed {
      return false, DenialMessage(p, csv, minPin, maxPin), [];
    }
    calls := [Reset(p), SetDirection(p, Input), GetLevel(p)];
    text := "Pin " + IntToDecimal(p) + " = " + LevelWord(level(p));
    ok := true;
  }

  /** A successful write or read reply never reads as a refusal. */
  lemma SuccessIsNotError(p: int, sep: string, word: string)
    ensures !IsError("Pin " + IntToDecimal(p) + sep + word)
  {
    var m := "Pin " + IntToDecimal(p) + sep + word;
    if |m| >= 7 {
      assert m[0] == 'P' && "Error: "[0] == 'E';
    }
  }

  // ---------------------------------------------------------------------------
  // delay

  /** DELAY_MAX_MS: the longest wait the tool accepts, one minute. */
  const DelayMaxMs: int := 60000

  /**
   * tools_delay_handler: a positive request of at most DelayMaxMs
   * milliseconds waits that long; anything else is refused and waits not at
   * all. `waited` stands for the vTaskDelay call.
   */
  method DelayHandler(ms: Option<int>) returns (ok: bool, text: string, waited: nat)
    ensures ok <==> ms.Some? && 0 < ms.value <= DelayMaxMs
    ensures waited <= DelayMaxMs
    ensures ok ==> waited == ms.value && text == "Waited " + IntToDecimal(ms.value) + " ms"
    ensures !ok ==> waited == 0 && IsError(text)
    ensures ms.None? ==> text == "Error: 'milliseconds' required (number)"
    ensures ms.Some? && ms.value <= 0 ==> text == "Error: milliseconds must be positive"
    ensures ms.Some? && ms.value > DelayMaxMs ==>
      text == "Error: max delay is " + IntToDecimal(DelayMaxMs) + " ms (got " + IntToDecimal(ms.value) + ")"
  {
    if ms.None? {
      return false, "Error: 'milliseconds' required (number)", 0;
    }
    var n := ms.value;
    if n <= 0 {
      return false, "Error: milliseconds must be positive", 0;
    }
    if n > DelayMaxMs {
      return false, "Error: max delay is " + IntToDecimal(DelayMaxMs) + " ms (got " + IntToDecimal(n) + ")", 0;
    }
    return true, "Waited " + IntToDecimal(n) + " ms", n;
  }

  // ---------------------------------------------------------------------------
  // The result buffer

  /** buf holds text as a C string: the characters, then a NUL. */
  predicate HoldsString(buf: array<char>, text: string)
    reads buf
  {
    |text| < buf.Length && buf[..|text|] == text && buf[|text|] == '\0'
  }

  /** What snprintf leaves of text in a buffer of size bytes: the part that
      fits before the terminating NUL. */
  function Fit(text: string, size: nat): (f: string)
    requires size > 0
    ensures |f| < size && f <= text
    ensures |text| < size ==> f == text
  {
    if |text| < size then text else text[..size - 1]
  }

  /**
   * snprintf(buf + at, size, "%s", text): writes what fits of text and a NUL
   * within the size bytes at `at`, and returns the length text would need.
   */
  method Snprintf(buf: array<char>, at: nat, size: nat, text: string) returns (written: nat)
    requires 0 < size && at + size <= buf.Length
    modifies buf
    ensures written == |text|
    ensures var f := Fit(text, size);
      && buf[..at] == old(buf[..at])
      && buf[at..at + |f|] == f && buf[at + |f|] == '\0'
  {
    var f := Fit(text, size);
    var k := 0;
    while k < |f|
      invariant k <= |f|
      invariant buf[..at] == old(buf[..at])
      invariant buf[at..at + k] == f[..k]
    {
      buf[at + k] := f[k];
      k := k + 1;
    }
    buf[at + |f|] := '\0';
    written := |text|;
  }

  /** Writing a message over the whole buffer leaves what fits of it. */
  method WriteMessage(buf: array<char>, text: string)
    requires buf.Length > 0
    modifies buf
    ensures HoldsString(buf, Fit(text, buf.Length))
  {
    var _ := Snprintf(buf, 0, buf.Length, text);
  }

  // ---------------------------------------------------------------------------
  // gpio_read_all

  const StatesPrefix: string := "GPIO states: "
  const OverflowMessage: string := "Error: GPIO state list exceeded response buffer"
  const NoPinsMessage: string := "Error: no allowed GPIO pins configured"

  /** One pin's entry in read_all's reply: "<pin>=HIGH" or "<pin>=LOW",
      after ", " unless it is the first. */
  function StateEntry(pin: int, first: bool, high: bool): string
  {
    (if first then "" else ", ") + IntToDecimal(pin) + "=" + LevelWord(high)
  }

  /** The entries of pins in the order read_all appends them. */
  function StatesText(pins: seq<int>, level: int -> bool): string
  {
    if pins == [] then []
    else
      var last := pins[|pins| - 1];
      StatesText(pins[..|pins| - 1], level) + StateEntry(last, |pins| == 1, level(last))
  }

  /** What read_all produces: whether it succeeds, and the string left in a
      result buffer of size bytes. */
  datatype Outcome = Outcome(ok: bool, text: string)

  /**
   * tools_gpio_read_all_handler, stated whole: the prefix must fit; no pins
   * to report is an error; the reply must fit with its NUL; otherwise the
   * reply is the prefix and one entry per pin ReadAllPins lists.
   */
  function ReadAllOutcome(csv: string, minPin: int, maxPin: int, level: int -> bool, size: nat): (o: Outcome)
    requires size > 0
    ensures |o.text| < size
  {
    var pins := ReadAllPins(csv, minPin, maxPin);
    var full := StatesPrefix + StatesText(pins, level);
    if size <= |StatesPrefix| then Outcome(false, [])
    else if pins == [] then Outcome(false, Fit(NoPinsMessage, size))
    else if |full| >= size then Outcome(false, Fit(OverflowMessage, size))
    else Outcome(true, full)
  }

  /**
   * gpio_append_read_state: read pin's level and append its entry at cursor
   * if the entry and its NUL fit in the remaining bytes; on failure the
   * cursor stays where it was (the truncated attempt lies beyond it).
   */
  method AppendReadState(buf: array<char>, cursor: nat, remaining: nat, pin: int, first: bool, level: int -> bool)
    returns (ok: bool, cursor': nat, remaining': nat)
    requires remaining > 0 && cursor + remaining == buf.Length
    modifies buf
    ensures var e := StateEntry(pin, first, level(pin));
      && (ok <==> |e| < remaining)
      && cursor' + remaining' == buf.Length
      && buf[..cursor] == old(buf[..cursor])
      && (ok ==> cursor' == cursor + |e| && buf[cursor..cursor'] == e && buf[cursor'] == '\0')
      && (!ok ==> cursor' == cursor)
  {
    var e := StateEntry(pin, first, level(pin));
    var written := Snprintf(buf, cursor, remaining, e);
    if written >= remaining {
      return false, cursor, remaining;
    }
    return true, cursor + written, remaining - written;
  }

  /** Entries only add to the reply: the entries of a prefix of pins take no
      more room than those of all of them. */
  lemma {:induction false} StatesTextGrows(pins: seq<int>, n: nat, level: int -> bool)
    requires n <= |pins|
    ensures |StatesText(pins[..n], level)| <= |StatesText(pins, level)|
    decreases |pins| - n
  {
    if n < |pins| {
      StatesTextGrows(pins, n + 1, level);
      var q := pins[..n + 1];
      StatesTextDropLast(q, level);
      assert q[..n] == pins[..n];
    } else {
      assert pins[..n] == pins;
    }
  }

  /** Dropping the last pin does not lengthen the reply. */
  lemma StatesTextDropLast(q: seq<int>, level: int -> bool)
    requires q != []
    ensures |StatesText(q[..|q| - 1], level)| <= |StatesText(q, level)|
  {
  }

  /**
   * How far read_all got before its reply overflowed: probed is a prefix of
   * pins whose entries do not fit in room characters (the NUL needs the
   * last byte), while those of all its pins but the last do. Every pin of
   * probed was reset, set as input and read, the last one included, since
   * gpio_append_read_state reads the level before it knows whether the entry
   * fits (main/tools_gpio.c:67-75).
   */
  predicate FirstOverflow(pins: seq<int>, probed: seq<int>, room: int, level: int -> bool)
  {
    && probed != [] && probed <= pins
    && |StatesText(probed, level)| >= room
    && |StatesText(probed[..|probed| - 1], level)| < room
  }

  /** At most one prefix of the pins is the first to overflow, so
      FirstOverflow names exactly the pins a failed read_all touched. */
  lemma FirstOverflowUnique(pins: seq<int>, p: seq<int>, q: seq<int>, room: int, level: int -> bool)
    requires FirstOverflow(pins, p, room, level) && FirstOverflow(pins, q, room, level)
    ensures p == q
  {
    if |p| < |q| {
      ShorterPrefixFits(pins, p, q, room, level);
    } else if |q| < |p| {
      ShorterPrefixFits(pins, q, p, room, level);
    } else {
      assert p == pins[..|p|] && q == pins[..|q|];
    }
  }

  /** The loops' failure: the entries of the pins probed before pin fit,
      and pin's entry does not. */
  lemma OverflowAt(pins: seq<int>, before: seq<int>, pin: int, room: int, level: int -> bool)
    requires before + [pin] <= pins
    requires |StatesText(before, level)| < room <= |StatesText(before + [pin], level)|
    ensures FirstOverflow(pins, before + [pin], room, level)
    ensures |StatesText(pins, level)| >= room
  {
    assert (before + [pin])[..|before|] == before;
    assert pins[..|before| + 1] == before + [pin];
    StatesTextGrows(pins, |before| + 1, level);
  }

  /** A prefix shorter than the first to overflow still fits. */
  lemma ShorterPrefixFits(pins: seq<int>, p: seq<int>, q: seq<int>, room: int, level: int -> bool)
    requires p <= pins && FirstOverflow(pins, q, room, level) && |p| < |q|
    ensures |StatesText(p, level)| < room
  {
    var q' := q[..|q| - 1];
    assert q'[..|p|] == p by {
      assert p == pins[..|p|] && q == pins[..|q|];
    }
    StatesTextGrows(q', |p|, level);
  }

  /**
   * tools_gpio_read_all_handler: report the level of every pin ReadAllPins
   * lists, as "GPIO states: <pin>=HIGH, <pin>=LOW, ...", in a result buffer
   * of result.Length bytes. The input is ignored. `probed` lists the pins
   * whose level was read, in order.
   */
  method ReadAllHandler(csv: string, minPin: int, maxPin: int, level: int -> bool, result: array?<char>)
    returns (ok: bool, probed: seq<int>)
    modifies result
    ensures result == null || result.Length == 0 ==> !ok && probed == []
    ensures result != null && result.Length > 0 ==>
      var o := ReadAllOutcome(csv, minPin, maxPin, level, result.Length);
      ok == o.ok && HoldsString(result, o.text)
    ensures probed <= ReadAllPins(csv, minPin, maxPin)
    ensures ok ==> probed == ReadAllPins(csv, minPin, maxPin)
    ensures result != null && 0 < result.Length <= |StatesPrefix| ==> probed == []
    ensures result != null && result.Length > |StatesPrefix| ==>
      var pins := ReadAllPins(csv, minPin, maxPin);
      var room := result.Length - |StatesPrefix|;
      if |StatesText(pins, level)| < room then probed == pins
      else FirstOverflow(pins, probed, room, level)
  {
    if result == null || result.Length == 0 {
      return false, [];
    }
    var size := result.Length;
    var written := Snprintf(result, 0, size, StatesPrefix);
    if written >= size {
      result[0] := '\0';
      return false, [];
    }
    var cursor, remaining := written, size - written;
    var fits;
    if csv != [] {
      fits, cursor, probed := AppendListStates(csv, level, result, cursor, remaining);
    } else {
      fits, cursor, probed := AppendRangeStates(minPin, maxPin, level, result, cursor, remaining);
    }
    var pins := ReadAllPins(csv, minPin, maxPin);
    if !fits {
      WriteMessage(result, OverflowMessage);
      return false, probed;
    }
    if probed == [] {
      WriteMessage(result, NoPinsMessage);
      return false, probed;
    }
    ok := true;
  }

  /** Dropping one more value from the front of a list. */
  lemma Int32ValuesCons(v: int, rest: seq<int>)
    ensures Int32Values([v] + rest) == (if InInt32(v) then [v] else []) + Int32Values(rest)
  {
    assert ([v] + rest)[0] == v && ([v] + rest)[1..] == rest;
  }

  /** The pins read_all probes from position at of a configured list. */
  ghost function ListPinsFrom(csv: string, at: nat): seq<int>
    requires at <= |csv|
  {
    Int32Values(ValuesFrom(csv, at, Strtol))
  }

  /** One step of the list scan either ends the pins, passes over an
      entry, or yields the next pin. */
  lemma ListPinsStep(csv: string, at: nat, step: Step)
    requires at <= |csv| && step == StepAt(csv, at, Strtol)
    ensures step.End? ==> ListPinsFrom(csv, at) == []
    ensures step.Skipped? ==> ListPinsFrom(csv, at) == ListPinsFrom(csv, step.next)
    ensures step.Value? && !InInt32(step.value) ==> ListPinsFrom(csv, at) == ListPinsFrom(csv, step.next)
    ensures step.Value? && InInt32(step.value) ==> ListPinsFrom(csv, at) == [step.value] + ListPinsFrom(csv, step.next)
  {
    ValuesFromStep(csv, at, Strtol, step);
    if step.Value? {
      Int32ValuesCons(step.value, ValuesFrom(csv, step.next, Strtol));
    }
  }

  /** Reading one more pin adds its entry to the reply. */
  lemma StatesTextSnoc(probed: seq<int>, pin: int, level: int -> bool)
    ensures StatesText(probed + [pin], level)
      == StatesText(probed, level) + StateEntry(pin, probed == [], level(pin))
  {
    assert (probed + [pin])[..|probed|] == probed;
  }

  /**
   * One call of gpio_append_read_state from read_all's loops, where the
   * buffer holds head and the entries of the pins probed so far: on success
   * it holds the entries of one more pin; on failure that entry did not fit.
   */
  method AppendPinState(buf: array<char>, cursor: nat, left: nat, pin: int, first: bool, level: int -> bool,
                        ghost head: string, ghost probed: seq<int>)
    returns (ok: bool, next: nat, nextLeft: nat)
    requires first <==> probed == []
    requires left > 0 && cursor + left == buf.Length && buf[cursor] == '\0'
    requires buf[..cursor] == head + StatesText(probed, level)
    modifies buf
    ensures next + nextLeft == buf.Length && nextLeft > 0
    ensures ok ==> buf[..next] == head + StatesText(probed + [pin], level) && buf[next] == '\0'
    ensures !ok ==> |head| + |StatesText(probed + [pin], level)| >= buf.Length
  {
    ghost var before := buf[..cursor];
    ghost var e := StateEntry(pin, probed == [], level(pin));
    ok, next, nextLeft := AppendReadState(buf, cursor, left, pin, first, level);
    StatesTextSnoc(probed, pin, level);
    if ok {
      assert buf[..next] == buf[..cursor] + buf[cursor..next];
      ConcatAssoc(head, StatesText(probed, level), e);
    } else {
      next, nextLeft := cursor, left;
    }
  }

  /**
   * The loop of tools_gpio_read_all_handler over a configured pin list
   * (main/tools_gpio.c:167-199): the same scan as gpio_pin_in_allowlist;
   * each value that fits an int is probed and its entry appended after
   * start; an entry that does not fit ends the loop.
   */
  method AppendListStates(csv: string, level: int -> bool, buf: array<char>, start: nat, remaining: nat)
    returns (fits: bool, cursor: nat, probed: seq<int>)
    requires remaining > 0 && start + remaining == buf.Length && buf[start] == '\0'
    modifies buf
    ensures var pins := Int32Values(ListValues(csv));
      && probed <= pins
      && (fits ==> probed == pins && cursor < buf.Length && buf[cursor] == '\0'
                   && buf[..cursor] == old(buf[..start]) + StatesText(pins, level))
      && (!fits ==> start + |StatesText(pins, level)| >= buf.Length
                    && FirstOverflow(pins, probed, buf.Length - start, level))
  {
    ghost var pins := ListPinsFrom(csv, 0);
    ghost var head := buf[..start];
    cursor, probed := start, [];
    var left := remaining;
    var at := 0;
    while at < |csv|
      invariant at <= |csv|
      invariant cursor + left == buf.Length && left > 0
      invariant buf[..cursor] == head + StatesText(probed, level)
      invariant buf[cursor] == '\0'
      invariant pins == probed + ListPinsFrom(csv, at)
      decreases |csv| - at
    {
      var step := ScanStep(csv, at);
      if step.End? {
        break;
      }
      ListPinsStep(csv, at, step);
      ghost var rest := ListPinsFrom(csv, step.next);
      if step.Value? && InInt32(step.value) {
        var pin := step.value;
        assert start + |StatesText(probed, level)| < buf.Length by {
          assert |buf[..cursor]| == cursor && |head| == start;
        }
        var ok, next, nextLeft := AppendPinState(buf, cursor, left, pin, probed == [], level, head, probed);
        ConcatAssoc(probed, [pin], rest);
        ghost var before := probed;
        probed := probed + [pin];
        if !ok {
          TakeConcat(probed, rest);
          OverflowAt(pins, before, pin, buf.Length - start, level);
          return false, cursor, probed;
        }
        cursor, left := next, nextLeft;
      }
      at := step.next;
    }
    ListPinsStep(csv, at, StepAt(csv, at, Strtol));
    fits := true;
  }

  /** The first pins of a range are a shorter range. */
  lemma PinRangePrefix(lo: int, m: int, hi: int)
    requires lo - 1 <= m <= hi
    ensures PinRange(lo, hi)[..m - lo + 1] == PinRange(lo, m)
  {
  }

  /**
   * The loop of tools_gpio_read_all_handler over the pin range when no list
   * is configured (main/tools_gpio.c:200-209): every pin from minPin to
   * maxPin, ascending, is probed and its entry appended after start; an
   * entry that does not fit ends the loop.
   */
  method AppendRangeStates(minPin: int, maxPin: int, level: int -> bool, buf: array<char>, start: nat, remaining: nat)
    returns (fits: bool, cursor: nat, probed: seq<int>)
    requires remaining > 0 && start + remaining == buf.Length && buf[start] == '\0'
    modifies buf
    ensures var pins := PinRange(minPin, maxPin);
      && probed <= pins
      && (fits ==> probed == pins && cursor < buf.Length && buf[cursor] == '\0'
                   && buf[..cursor] == old(buf[..start]) + StatesText(pins, level))
      && (!fits ==> start + |StatesText(pins, level)| >= buf.Length
                    && FirstOverflow(pins, probed, buf.Length - start, level))
  {
    ghost var pins := PinRange(minPin, maxPin);
    ghost var head := buf[..start];
    cursor, probed := start, [];
    var left := remaining;
    var pin := minPin;
    while pin <= maxPin
      invariant minPin <= pin && (pin <= maxPin + 1 || pin == minPin)
      invariant probed == PinRange(minPin, pin - 1)
      invariant cursor + left == buf.Length && left > 0
      invariant buf[..cursor] == head + StatesText(probed, level)
      invariant buf[cursor] == '\0'
      decreases maxPin - pin
    {
      assert start + |StatesText(probed, level)| < buf.Length by {
        assert |buf[..cursor]| == cursor && |head| == start;
      }
      var ok, next, nextLeft := AppendPinState(buf, cursor, left, pin, probed == [], level, head, probed);
      ghost var before := probed;
      probed := probed + [pin];
      if !ok {
        PinRangePrefix(minPin, pin, maxPin);
        OverflowAt(pins, before, pin, buf.Length - start, level);
        return false, cursor, probed;
      }
      cursor, left := next, nextLeft;
      pin := pin + 1;
    }
    fits := true;
  }
}
