/**
 * The chat-ID allowlist: which remote chats may command the device.
 *
 * The text form is a comma-separated list of signed 64-bit chat IDs. Parsing is
 * fail-closed: one bad entry, more distinct IDs than the capacity, or no ID at
 * all rejects the whole list. The spec functions (Fields, Trim, ParseToken,
 * Absorb, ParseIds) describe the result; the methods Parse, Contains and
 * ResolveTarget are the cursor-and-array code, proved against them.
 */
module ChatIds {
  import opened Wrappers
  import opened CText

  /** TELEGRAM_MAX_ALLOWED_CHAT_IDS: the reference capacity of the allowlist. */
  const MaxAllowedChatIds: nat := 4

  /** Size of the on-stack copy of a token, terminator included. */
  const TokenBufferSize: nat := 32

  // ---------------------------------------------------------------------------
  // Splitting and trimming

  /** The comma-separated fields of s from position at on, untrimmed: each
      runs to the next comma or to the end of s. */
  function FieldsFrom(s: string, at: nat): (fs: seq<string>)
    requires at <= |s|
    ensures |fs| > 0
    decreases |s| - at
  {
    var c := SkipFrom(s, at, NonComma);
    [Span(s, at, c)] + if c == |s| then [] else FieldsFrom(s, c + 1)
  }

  /** The comma-separated fields of s, untrimmed; "" has one empty field. */
  function Fields(s: string): (fs: seq<string>)
    ensures |fs| > 0
  {
    FieldsFrom(s, 0)
  }

  /** Splitting on commas loses nothing: the fields of s from at on joined
      with ',' give back the text from at on. */
  lemma {:induction false} FieldsFromJoin(s: string, at: nat)
    requires at <= |s|
    ensures JoinWith(FieldsFrom(s, at), [',']) == Span(s, at, |s|)
    decreases |s| - at
  {
    var c := SkipFrom(s, at, NonComma);
    FieldAt(s, at, c);
    var fs := FieldsFrom(s, at);
    if c < |s| {
      FieldsFromJoin(s, c + 1);
      JoinCons(fs, [',']);
      SpanAround(s, at, c);
    } else {
      assert fs == [fs[0]];
    }
  }

  /** No field holds a comma. */
  lemma {:induction false} FieldsFromCommaFree(s: string, at: nat)
    requires at <= |s|
    ensures forall k :: 0 <= k < |FieldsFrom(s, at)| ==> ',' !in FieldsFrom(s, at)[k]
    decreases |s| - at
  {
    var c := SkipFrom(s, at, NonComma);
    FieldAt(s, at, c);
    SpanIsSlice(s, at, c);
    SkipFromAll(s, at, NonComma);
    var fs := FieldsFrom(s, at);
    assert ',' !in fs[0] by {
      forall k | 0 <= k < |fs[0]| ensures fs[0][k] != ',' {
        assert fs[0][k] == s[at + k];
      }
    }
    if c < |s| {
      FieldsFromCommaFree(s, c + 1);
      forall k | 1 <= k < |fs| ensures ',' !in fs[k] {
        assert fs[k] == fs[1..][k - 1];
      }
    }
  }

  /** Splitting on commas loses nothing: the fields joined with ',' give back s. */
  lemma FieldsJoin(s: string)
    ensures JoinWith(Fields(s), [',']) == s
    ensures forall k :: 0 <= k < |Fields(s)| ==> ',' !in Fields(s)[k]
  {
    FieldsFromJoin(s, 0);
    FieldsFromCommaFree(s, 0);
    SpanAll(s);
  }

  /** t without its trailing isspace() characters. */
  function TrimEnd(t: string): string
  {
    if t != [] && IsSpace(t[|t| - 1]) then TrimEnd(t[..|t| - 1]) else t
  }

  /** Trimming the end keeps t up to its last character that is not isspace(). */
  lemma {:induction false} TrimEndAt(t: string, j: nat)
    requires j <= |t|
    requires forall k :: j <= k < |t| ==> IsSpace(t[k])
    requires j == 0 || !IsSpace(t[j - 1])
    ensures TrimEnd(t) == t[..j]
    decreases |t|
  {
    if j < |t| {
      var u := t[..|t| - 1];
      assert forall k :: j <= k < |u| ==> u[k] == t[k];
      assert j > 0 ==> u[j - 1] == t[j - 1];
      TrimEndAt(u, j);
      assert u[..j] == t[..j];
    } else {
      assert t[..j] == t;
    }
  }

  /** t without its leading and trailing isspace() characters. */
  function Trim(t: string): string
  {
    var lead := SpanWhile(t, Space);
    TrimEnd(t[lead..])
  }

  /** The two cursors of the parse loop delimit the trimmed field. */
  lemma {:induction false} TrimAt(f: string, i: nat, j: nat)
    requires i <= j <= |f|
    requires forall k :: 0 <= k < i ==> IsSpace(f[k])
    requires i == |f| || !IsSpace(f[i])
    requires forall k :: j <= k < |f| ==> IsSpace(f[k])
    requires j == i || !IsSpace(f[j - 1])
    ensures Trim(f) == f[i..j]
  {
    SpanWhileIs(f, Space, i);
    var u := f[i..];
    assert forall k :: j - i <= k < |u| ==> u[k] == f[i + k];
    assert j > i ==> u[j - i - 1] == f[j - 1];
    TrimEndAt(u, j - i);
    assert u[..j - i] == f[i..j];
  }

  // ---------------------------------------------------------------------------
  // One token

  /**
   * parse_chat_id_token: the token must fit the 32-byte copy, strtoll must
   * consume all of it without overflowing int64_t, and the value must not be
   * the reserved 0.
   */
  function ParseToken(t: string): Option<int>
  {
    if |t| == 0 || |t| >= TokenBufferSize then None
    else match Strtol(t)
      case NoConversion => None
      case Converted(v, end) => if end != |t| || !InInt64(v) || v == 0 then None else Some(v)
  }

  /** A base-10 signed integer: an optional sign and at least one digit, nothing else. */
  predicate IsSignedDecimal(t: string)
  {
    var digits := if 0 < |t| && (t[0] == '+' || t[0] == '-') then t[1..] else t;
    0 < |digits| && AllDigits(digits)
  }

  function SignedDecimalValue(t: string): int
    requires IsSignedDecimal(t)
  {
    if t[0] == '-' then -(DigitsValue(t[1..]) as int)
    else if t[0] == '+' then DigitsValue(t[1..])
    else DigitsValue(t)
  }

  /**
   * A trimmed token is accepted exactly when it is non-empty, shorter than 32
   * characters, entirely a base-10 signed integer, within int64_t and not 0;
   * the ID is then that integer.
   */
  lemma {:induction false} TokenAcceptance(t: string)
    requires t == [] || !IsSpace(t[0])
    ensures ParseToken(t) ==
      if 0 < |t| < TokenBufferSize && IsSignedDecimal(t)
         && InInt64(SignedDecimalValue(t)) && SignedDecimalValue(t) != 0
      then Some(SignedDecimalValue(t)) else None
  {
    if 0 < |t| {
      SpanWhileIs(t, Space, 0);
      var signed := t[0] == '+' || t[0] == '-';
      var start := if signed then 1 else 0;
      var len := SpanWhile(t[start..], Digit);
      SpanWhileAll(t[start..], Digit);
      if 0 < len && start + len == |t| {
        assert t[start..] == t[start..][..len];
      }
      if IsSignedDecimal(t) {
        SpanWhileIs(t[start..], Digit, |t| - start);
        assert t[start..start + len] == t[start..];
      }
    }
  }

  /** Every ID the allowlist can hold survives printing and re-parsing. */
  lemma {:induction false} TokenRoundTrip(v: int)
    requires InInt64(v) && v != 0
    ensures ParseToken(IntToDecimal(v)) == Some(v)
  {
    Int64DecimalLength(v);
    StrtolIntToDecimal(v, []);
    assert IntToDecimal(v) + [] == IntToDecimal(v);
  }

  // ---------------------------------------------------------------------------
  // The whole list

  /** What one field contributes to the list: nothing, a rejection, or an ID. */
  datatype Token = Blank | Invalid | Id(value: int)

  /** The verdict on a trimmed token: empty, or converted by parse_chat_id_token. */
  function TokenOf(t: string): (tok: Token)
    ensures tok == Blank <==> t == []
    ensures tok.Id? ==> tok.value != 0 && InInt64(tok.value) && ParseToken(t) == Some(tok.value)
  {
    if t == [] then Blank
    else match ParseToken(t)
      case None => Invalid
      case Some(v) => Id(v)
  }

  /** The verdicts on the trimmed fields, in order. */
  function Tokens(fields: seq<string>): (toks: seq<Token>)
    ensures |toks| == |fields|
  {
    if fields == [] then [] else [TokenOf(Trim(fields[0]))] + Tokens(fields[1..])
  }

  lemma {:induction false} TokensAt(fields: seq<string>, k: nat)
    requires k < |fields|
    ensures Tokens(fields)[k] == TokenOf(Trim(fields[k]))
  {
    if k > 0 {
      TokensAt(fields[1..], k - 1);
    }
  }

  /**
   * One token against the IDs stored so far (acc): a blank is skipped, an
   * invalid token fails, a repeated ID is dropped, and a new ID fails when
   * maxIds are already stored.
   */
  function AbsorbToken(tok: Token, acc: seq<int>, maxIds: nat): Option<seq<int>>
  {
    match tok
    case Blank => Some(acc)
    case Invalid => None
    case Id(v) =>
      if v in acc then Some(acc)
      else if |acc| >= maxIds then None
      else Some(acc + [v])
  }

  /** The parse loop over the remaining tokens, with acc the IDs stored so far. */
  function Absorb(toks: seq<Token>, acc: seq<int>, maxIds: nat): Option<seq<int>>
    decreases |toks|
  {
    if toks == [] then Some(acc)
    else match AbsorbToken(toks[0], acc, maxIds)
      case None => None
      case Some(acc') => Absorb(toks[1..], acc', maxIds)
  }

  /** The first step of Absorb, for the loop that takes one token at a time. */
  lemma AbsorbCons(tok: Token, rest: seq<Token>, acc: seq<int>, maxIds: nat)
    ensures Absorb([tok] + rest, acc, maxIds) ==
      match AbsorbToken(tok, acc, maxIds)
      case None => None
      case Some(acc') => Absorb(rest, acc', maxIds)
  {
    assert ([tok] + rest)[1..] == rest;
  }

  /** telegram_chat_ids_parse: the IDs of s, or None when the list is rejected. */
  function ParseIds(s: string, maxIds: nat): Option<seq<int>>
  {
    match Absorb(Tokens(Fields(s)), [], maxIds)
    case None => None
    case Some(ids) => if ids == [] then None else Some(ids)
  }

  // ---------------------------------------------------------------------------
  // A reference description of the result

  predicate NoDuplicates(s: seq<int>)
  {
    forall i, j :: 0 <= i < j < |s| ==> s[i] != s[j]
  }

  predicate AllValid(toks: seq<Token>)
  {
    forall k :: 0 <= k < |toks| ==> !toks[k].Invalid?
  }

  /** The IDs written in the tokens, in order, repeats included. */
  function Values(toks: seq<Token>): seq<int>
  {
    if toks == [] then []
    else if toks[0].Id? then [toks[0].value] + Values(toks[1..])
    else Values(toks[1..])
  }

  /** The distinct elements of xs, each where it first occurs. */
  function Dedup(xs: seq<int>): seq<int>
  {
    if xs == [] then []
    else
      var d := Dedup(xs[..|xs| - 1]);
      if xs[|xs| - 1] in d then d else d + [xs[|xs| - 1]]
  }

  /** The position of the first occurrence of x in xs. */
  function FirstIndex(xs: seq<int>, x: int): (i: nat)
    requires x in xs
    ensures i < |xs| && xs[i] == x && x !in xs[..i]
  {
    if xs[0] == x then 0 else 1 + FirstIndex(xs[1..], x)
  }

  lemma {:induction false} DedupMembers(xs: seq<int>)
    ensures forall x :: x in Dedup(xs) <==> x in xs
  {
    if xs != [] {
      var init := xs[..|xs| - 1];
      DedupMembers(init);
      assert xs == init + [xs[|xs| - 1]];
    }
  }

  lemma {:induction false} DedupDistinct(xs: seq<int>)
    ensures NoDuplicates(Dedup(xs))
  {
    if xs != [] {
      DedupDistinct(xs[..|xs| - 1]);
    }
  }

  /** Dedup keeps first-seen order: of two kept elements, the earlier one was seen first. */
  lemma {:induction false} DedupOrder(xs: seq<int>, i: nat, j: nat)
    requires i < j < |Dedup(xs)|
    ensures Dedup(xs)[i] in xs && Dedup(xs)[j] in xs
    ensures FirstIndex(xs, Dedup(xs)[i]) < FirstIndex(xs, Dedup(xs)[j])
  {
    DedupMembers(xs);
    var init := xs[..|xs| - 1];
    var y := xs[|xs| - 1];
    var d := Dedup(init);
    DedupMembers(init);
    assert xs == init + [y];
    assert Dedup(xs) == if y in d then d else d + [y];
    assert i < |d| && Dedup(xs)[i] == d[i] && d[i] in d;
    FirstIndexPrefix(init, [y], d[i]);
    if j < |d| {
      DedupOrder(init, i, j);
      FirstIndexPrefix(init, [y], d[j]);
    }
  }

  lemma {:induction false} FirstIndexPrefix(xs: seq<int>, ys: seq<int>, x: int)
    requires x in xs
    ensures FirstIndex(xs + ys, x) == FirstIndex(xs, x)
  {
    if xs[0] != x {
      assert (xs + ys)[1..] == xs[1..] + ys;
      FirstIndexPrefix(xs[1..], ys, x);
    }
  }

  /** Later input never removes or reorders what was already kept. */
  lemma {:induction false} DedupPrefix(xs: seq<int>, ys: seq<int>)
    ensures Dedup(xs) <= Dedup(xs + ys)
    decreases |ys|
  {
    if ys == [] {
      assert xs + ys == xs;
    } else {
      var init := ys[..|ys| - 1];
      DedupPrefix(xs, init);
      var zs := xs + ys;
      assert zs[..|zs| - 1] == xs + init;
      assert Dedup(xs + init) <= Dedup(zs);
    }
  }

  /** Every value comes from an Id token. */
  lemma {:induction false} ValuesAreIds(toks: seq<Token>)
    ensures forall v :: v in Values(toks) ==> Id(v) in toks
  {
    if toks != [] {
      ValuesAreIds(toks[1..]);
      assert forall t :: t in toks[1..] ==> t in toks;
    }
  }

  /**
   * Absorb against the reference: starting from the deduplicated IDs of seen,
   * the loop succeeds exactly when no token is invalid and the distinct IDs
   * fit, and it then holds the distinct IDs of seen and the tokens in
   * first-seen order.
   */
  lemma {:induction false} AbsorbDedup(toks: seq<Token>, seen: seq<int>, maxIds: nat)
    requires |Dedup(seen)| <= maxIds
    ensures Absorb(toks, Dedup(seen), maxIds) ==
      if AllValid(toks) && |Dedup(seen + Values(toks))| <= maxIds
      then Some(Dedup(seen + Values(toks))) else None
    decreases |toks|
  {
    if toks == [] {
      assert seen + [] == seen;
    } else if toks[0].Invalid? {
      assert !AllValid(toks);
    } else {
      var rest := toks[1..];
      var vs := if toks[0].Id? then [toks[0].value] else [];
      var seen' := seen + vs;
      AbsorbTokenDedup(toks[0], seen, maxIds);
      ValuesCons(toks);
      assert seen + Values(toks) == seen' + Values(rest);
      if |Dedup(seen')| <= maxIds {
        AbsorbDedup(rest, seen', maxIds);
      } else {
        DedupPrefix(seen', Values(rest));
      }
    }
  }

  /** The first token's part of the values, and of the validity check. */
  lemma ValuesCons(toks: seq<Token>)
    requires toks != [] && !toks[0].Invalid?
    ensures Values(toks) == (if toks[0].Id? then [toks[0].value] else []) + Values(toks[1..])
    ensures AllValid(toks) <==> AllValid(toks[1..])
  {
    var rest := toks[1..];
    if AllValid(rest) {
      forall k | 0 <= k < |toks| ensures !toks[k].Invalid? {
        if k > 0 { assert toks[k] == rest[k - 1]; }
      }
    }
  }

  /** One blank or ID token, against the reference: its ID joins the seen IDs. */
  lemma AbsorbTokenDedup(tok: Token, seen: seq<int>, maxIds: nat)
    requires |Dedup(seen)| <= maxIds
    requires !tok.Invalid?
    ensures var seen' := seen + (if tok.Id? then [tok.value] else []);
      AbsorbToken(tok, Dedup(seen), maxIds) ==
        if |Dedup(seen')| <= maxIds then Some(Dedup(seen')) else None
  {
    if tok.Blank? {
      assert seen + [] == seen;
    } else {
      var seen' := seen + [tok.value];
      assert seen'[..|seen'| - 1] == seen;
    }
  }

  /**
   * What telegram_chat_ids_parse accepts and produces, in one statement: the
   * list is accepted iff no non-empty token is invalid and the number of
   * distinct IDs is between 1 and maxIds; the result is the distinct IDs in
   * first-seen order.
   */
  lemma {:induction false} ParseIdsMeaning(s: string, maxIds: nat)
    ensures var toks := Tokens(Fields(s));
      ParseIds(s, maxIds) ==
        if AllValid(toks) && 0 < |Dedup(Values(toks))| <= maxIds
        then Some(Dedup(Values(toks))) else None
  {
    var toks := Tokens(Fields(s));
    AbsorbDedup(toks, [], maxIds);
    assert [] + Values(toks) == Values(toks);
  }

  /** Success: between 1 and maxIds IDs, no repeats, none 0, all int64_t. */
  lemma {:induction false} ParseIdsSuccess(s: string, maxIds: nat)
    requires ParseIds(s, maxIds).Some?
    ensures 1 <= |ParseIds(s, maxIds).value| <= maxIds
    ensures NoDuplicates(ParseIds(s, maxIds).value)
    ensures forall id :: id in ParseIds(s, maxIds).value ==> id != 0 && InInt64(id)
  {
    ParseIdsMeaning(s, maxIds);
    var fields := Fields(s);
    var toks := Tokens(fields);
    var vals := Values(toks);
    DedupDistinct(vals);
    DedupMembers(vals);
    ValuesAreIds(toks);
    forall id | id in vals ensures id != 0 && InInt64(id) {
      var k :| 0 <= k < |toks| && toks[k] == Id(id);
      TokensAt(fields, k);
    }
  }

  /** On success the result holds exactly the IDs written, each once, in first-seen order. */
  lemma {:induction false} ParseIdsFirstSeen(s: string, maxIds: nat)
    requires ParseIds(s, maxIds).Some?
    ensures AllValid(Tokens(Fields(s)))
    ensures forall x :: x in ParseIds(s, maxIds).value <==> x in Values(Tokens(Fields(s)))
    ensures forall i, j :: 0 <= i < j < |ParseIds(s, maxIds).value| ==>
      FirstIndex(Values(Tokens(Fields(s))), ParseIds(s, maxIds).value[i])
        < FirstIndex(Values(Tokens(Fields(s))), ParseIds(s, maxIds).value[j])
  {
    ParseIdsMeaning(s, maxIds);
    var vals := Values(Tokens(Fields(s)));
    DedupMembers(vals);
    forall i, j | 0 <= i < j < |Dedup(vals)|
      ensures FirstIndex(vals, Dedup(vals)[i]) < FirstIndex(vals, Dedup(vals)[j])
    {
      DedupOrder(vals, i, j);
    }
  }

  /** Fail-closed: one non-empty token that is not a valid ID rejects the whole list. */
  lemma {:induction false} ParseIdsFailClosed(s: string, maxIds: nat, k: nat)
    requires k < |Fields(s)|
    requires Trim(Fields(s)[k]) != [] && ParseToken(Trim(Fields(s)[k])).None?
    ensures ParseIds(s, maxIds) == None
  {
    ParseIdsMeaning(s, maxIds);
    TokensAt(Fields(s), k);
  }

  /** More distinct IDs than the capacity reject the list; it is never truncated. */
  lemma {:induction false} ParseIdsNoTruncation(s: string, maxIds: nat)
    requires |Dedup(Values(Tokens(Fields(s))))| > maxIds
    ensures ParseIds(s, maxIds) == None
  {
    ParseIdsMeaning(s, maxIds);
  }

  /** A list whose tokens are all empty (such as "" or "  ,  ") is rejected. */
  lemma {:induction false} ParseIdsRejectsEmpty(s: string, maxIds: nat)
    requires forall k :: 0 <= k < |Fields(s)| ==> Trim(Fields(s)[k]) == []
    ensures ParseIds(s, maxIds) == None
  {
    ParseIdsMeaning(s, maxIds);
    var toks := Tokens(Fields(s));
    forall k | 0 <= k < |toks| ensures toks[k] == Blank {
      TokensAt(Fields(s), k);
    }
    NoValues(toks);
  }

  lemma {:induction false} NoValues(toks: seq<Token>)
    requires forall k :: 0 <= k < |toks| ==> toks[k] == Blank
    ensures Values(toks) == []
  {
    if toks != [] {
      assert forall k :: 0 <= k < |toks| - 1 ==> toks[1..][k] == toks[k + 1];
      NoValues(toks[1..]);
    }
  }

  // ---------------------------------------------------------------------------
  // Printing a list and parsing it back

  /** Every string of pads is made of isspace() characters only. */
  predicate AllSpace(pads: seq<string>)
  {
    forall k, i :: 0 <= k < |pads| && 0 <= i < |pads[k]| ==> IsSpace(pads[k][i])
  }

  /** One list entry: the decimal numeral of id between two pads. */
  function Entry(lead: string, id: int, trail: string): string
  {
    lead + IntToDecimal(id) + trail
  }

  /** The entries of ids, in order, each with its own pads. */
  function Entries(ids: seq<int>, lead: seq<string>, trail: seq<string>): (es: seq<string>)
    requires |lead| == |ids| && |trail| == |ids|
    ensures |es| == |ids|
  {
    if ids == [] then []
    else [Entry(lead[0], ids[0], trail[0])] + Entries(ids[1..], lead[1..], trail[1..])
  }

  lemma {:induction false} EntriesAt(ids: seq<int>, lead: seq<string>, trail: seq<string>, k: nat)
    requires |lead| == |ids| && |trail| == |ids| && k < |ids|
    ensures Entries(ids, lead, trail)[k] == Entry(lead[k], ids[k], trail[k])
  {
    if k > 0 {
      var rest := Entries(ids[1..], lead[1..], trail[1..]);
      assert Entries(ids, lead, trail) == [Entry(lead[0], ids[0], trail[0])] + rest;
      EntriesAt(ids[1..], lead[1..], trail[1..], k - 1);
    }
  }

  /** A padded numeral holds no comma and trims to the numeral, which converts back to id. */
  lemma {:induction false} EntryToken(lead: string, id: int, trail: string)
    requires forall i :: 0 <= i < |lead| ==> IsSpace(lead[i])
    requires forall i :: 0 <= i < |trail| ==> IsSpace(trail[i])
    requires InInt64(id) && id != 0
    ensures ',' !in Entry(lead, id, trail)
    ensures TokenOf(Trim(Entry(lead, id, trail))) == Id(id)
  {
    var d := IntToDecimal(id);
    DecimalShape(id);
    assert ',' !in d by {
      forall k | 0 <= k < |d| ensures d[k] != ',' {
      }
    }
    assert ',' !in lead + d + trail by {
      forall k | 0 <= k < |lead| ensures lead[k] != ',' {
      }
      forall k | 0 <= k < |trail| ensures trail[k] != ',' {
      }
    }
    PaddedTrim(lead, d, trail);
    TokenRoundTrip(id);
  }

  /** Trimming removes isspace() padding from both ends of a token that starts and ends with non-space. */
  lemma {:induction false} PaddedTrim(lead: string, d: string, trail: string)
    requires forall i :: 0 <= i < |lead| ==> IsSpace(lead[i])
    requires forall i :: 0 <= i < |trail| ==> IsSpace(trail[i])
    requires 0 < |d| && !IsSpace(d[0]) && !IsSpace(d[|d| - 1])
    ensures Trim(lead + d + trail) == d
  {
    var e := lead + d + trail;
    var i, j := |lead|, |lead| + |d|;
    assert forall k :: 0 <= k < i ==> e[k] == lead[k];
    assert forall k :: j <= k < |e| ==> e[k] == trail[k - j];
    assert e[i] == d[0] && e[j - 1] == d[|d| - 1];
    assert e[i..j] == d by {
      forall k | 0 <= k < |d| ensures e[i..j][k] == d[k] {
        assert e[i..j][k] == e[i + k];
      }
    }
    TrimAt(e, i, j);
  }

  /** Every entry is a valid token, and the values read are ids, in order. */
  lemma {:induction false} EntriesValues(ids: seq<int>, lead: seq<string>, trail: seq<string>)
    requires |lead| == |ids| && |trail| == |ids|
    requires AllSpace(lead) && AllSpace(trail)
    requires forall k :: 0 <= k < |ids| ==> ids[k] != 0 && InInt64(ids[k])
    ensures AllValid(Tokens(Entries(ids, lead, trail)))
    ensures Values(Tokens(Entries(ids, lead, trail))) == ids
  {
    if ids != [] {
      var toks := Tokens(Entries(ids, lead, trail));
      var rest := Tokens(Entries(ids[1..], lead[1..], trail[1..]));
      AllSpaceTail(lead);
      AllSpaceTail(trail);
      EntriesCons(ids, lead, trail);
      EntriesValues(ids[1..], lead[1..], trail[1..]);
      assert toks[1..] == rest;
      ValuesCons(toks);
      assert ids == [ids[0]] + ids[1..];
    }
  }

  /** The first entry reads as the first id, ahead of the other entries. */
  lemma EntriesCons(ids: seq<int>, lead: seq<string>, trail: seq<string>)
    requires |lead| == |ids| && |trail| == |ids| && ids != []
    requires forall i :: 0 <= i < |lead[0]| ==> IsSpace(lead[0][i])
    requires forall i :: 0 <= i < |trail[0]| ==> IsSpace(trail[0][i])
    requires ids[0] != 0 && InInt64(ids[0])
    ensures Tokens(Entries(ids, lead, trail))
      == [Id(ids[0])] + Tokens(Entries(ids[1..], lead[1..], trail[1..]))
  {
    var es := Entries(ids, lead, trail);
    EntryToken(lead[0], ids[0], trail[0]);
    assert es[1..] == Entries(ids[1..], lead[1..], trail[1..]);
  }

  lemma AllSpaceTail(pads: seq<string>)
    requires pads != [] && AllSpace(pads)
    ensures AllSpace(pads[1..])
    ensures forall i :: 0 <= i < |pads[0]| ==> IsSpace(pads[0][i])
  {
    forall k, i | 0 <= k < |pads| - 1 && 0 <= i < |pads[1..][k]| ensures IsSpace(pads[1..][k][i]) {
      assert pads[1..][k] == pads[k + 1];
    }
  }

  /** Where the rest of s from a cursor is a comma-joined list of comma-free
      parts, splitting from that cursor gives the parts back. */
  lemma {:induction false} FieldsOfSpan(s: string, at: nat, parts: seq<string>)
    requires at <= |s| && |parts| > 0
    requires forall k :: 0 <= k < |parts| ==> ',' !in parts[k]
    requires Span(s, at, |s|) == JoinWith(parts, [','])
    ensures FieldsFrom(s, at) == parts
    decreases |parts|
  {
    var p := parts[0];
    if |parts| == 1 {
      forall k | at <= k < |s| ensures InClass(s[k], NonComma) {
        SpanIndex(s, at, |s|, k - at);
      }
      SkipOver(s, at, |s|, NonComma);
      FieldAt(s, at, |s|);
    } else {
      var rest := JoinWith(parts[1..], [',']);
      JoinCons(parts, [',']);
      var e := at + |p|;
      forall k | at <= k < e ensures InClass(s[k], NonComma) {
        SpanIndex(s, at, |s|, k - at);
        assert (p + [','] + rest)[k - at] == p[k - at];
      }
      SpanIndex(s, at, |s|, |p|);
      assert (p + [','] + rest)[|p|] == ',';
      SkipOver(s, at, e, NonComma);
      SpanAround(s, at, e);
      ConcatCancel(Span(s, at, e) + [s[e]], Span(s, e + 1, |s|), p + [','], rest);
      ConcatCancel(Span(s, at, e), [s[e]], p, [',']);
      FieldAt(s, at, e);
      FieldsOfSpan(s, e + 1, parts[1..]);
      HeadTail(FieldsFrom(s, at), parts);
    }
  }

  /** Splitting a comma-joined list of comma-free parts gives the parts back. */
  lemma FieldsOfJoin(parts: seq<string>)
    requires |parts| > 0
    requires forall k :: 0 <= k < |parts| ==> ',' !in parts[k]
    ensures Fields(JoinWith(parts, [','])) == parts
  {
    SpanAll(JoinWith(parts, [',']));
    FieldsOfSpan(JoinWith(parts, [',']), 0, parts);
  }

  /**
   * Printing nonzero int64_t IDs as a comma-separated list, with any isspace()
   * padding around each numeral, and parsing it back gives the distinct IDs in
   * first-seen order, and fails exactly when there are more distinct IDs than
   * the capacity.
   */
  lemma {:induction false} ParseIdsRoundTrip(ids: seq<int>, lead: seq<string>, trail: seq<string>, maxIds: nat)
    requires ids != []
    requires |lead| == |ids| && |trail| == |ids|
    requires AllSpace(lead) && AllSpace(trail)
    requires forall k :: 0 <= k < |ids| ==> ids[k] != 0 && InInt64(ids[k])
    ensures ParseIds(JoinWith(Entries(ids, lead, trail), [',']), maxIds) ==
      if |Dedup(ids)| <= maxIds then Some(Dedup(ids)) else None
  {
    var es := Entries(ids, lead, trail);
    forall k | 0 <= k < |es| ensures ',' !in es[k] {
      EntriesAt(ids, lead, trail, k);
      EntryToken(lead[k], ids[k], trail[k]);
    }
    FieldsOfJoin(es);
    EntriesValues(ids, lead, trail);
    ParseIdsMeaning(JoinWith(es, [',']), maxIds);
    DedupMembers(ids);
    assert ids[0] in Dedup(ids);
  }

  // ---------------------------------------------------------------------------
  // The host tests' inputs

  /** The host test's single ID (there 7585013353), for any ID: the list of
      one numeral holds exactly that ID. */
  lemma SingleId(a: int)
    requires a != 0 && InInt64(a)
    ensures ParseIds(IntToDecimal(a), MaxAllowedChatIds) == Some([a])
  {
    ParseIdsRoundTrip([a], [""], [""], MaxAllowedChatIds);
    assert Entry("", a, "") == IntToDecimal(a);
    assert Entries([a], [""], [""]) == [Entry("", a, "")] + Entries([], [], []);
    assert Dedup([a]) == [a];
  }

  /** "", "abc" and "0" are rejected: no token, a non-numeric token, the reserved 0. */
  lemma RejectsEmptyList()
    ensures ParseIds("", MaxAllowedChatIds) == None
  {
    assert Fields("") == [""];
    ParseIdsRejectsEmpty("", MaxAllowedChatIds);
  }

  lemma RejectsNonNumericList()
    ensures ParseIds("abc", MaxAllowedChatIds) == None
  {
    SkipOver("abc", 0, 3, NonComma);
    SpanIsSlice("abc", 0, 3);
    assert "abc"[0..3] == "abc";
    assert FieldsFrom("abc", 0) == ["abc"];
    TrimAt("abc", 0, 3);
    TokenAcceptance("abc");
    ParseIdsFailClosed("abc", MaxAllowedChatIds, 0);
  }

  lemma RejectsZeroList()
    ensures ParseIds("0", MaxAllowedChatIds) == None
  {
    SkipOver("0", 0, 1, NonComma);
    SpanIsSlice("0", 0, 1);
    assert "0"[0..1] == "0";
    assert FieldsFrom("0", 0) == ["0"];
    TrimAt("0", 0, 1);
    TokenAcceptance("0");
    ParseIdsFailClosed("0", MaxAllowedChatIds, 0);
  }

  /** Five distinct IDs do not fit the reference capacity of four; nothing is truncated. */
  lemma RejectsFiveIdsAtCapacity(s: string)
    requires s == "1,2,3,4,5"
    ensures ParseIds(s, MaxAllowedChatIds) == None
  {
    var ids, pads := [1, 2, 3, 4, 5], ["", "", "", "", ""];
    assert forall k :: 0 <= k < 5 ==> ids[k] == k + 1 && pads[k] == "";
    FiveEntries(ids, pads, s);
    ParseIdsRoundTrip(ids, pads, pads, MaxAllowedChatIds);
    DedupOfDistinct(ids);
  }

  lemma FiveEntries(ids: seq<int>, pads: seq<string>, s: string)
    requires ids == [1, 2, 3, 4, 5] && pads == ["", "", "", "", ""]
    requires s == "1,2,3,4,5"
    ensures JoinWith(Entries(ids, pads, pads), [',']) == s
  {
    var parts := ["1", "2", "3", "4", "5"];
    forall k | 0 <= k < 5 ensures Entries(ids, pads, pads)[k] == parts[k] {
      EntriesAt(ids, pads, pads, k);
      assert IntToDecimal(ids[k]) == [DigitChar(ids[k])];
    }
    assert Entries(ids, pads, pads) == parts;
    assert JoinWith(parts[3..], [',']) == "4,5";
    assert JoinWith(parts[2..], [',']) == "3,4,5";
    assert JoinWith(parts[1..], [',']) == "2,3,4,5";
  }

  /** Dedup leaves a list without repeats as it is. */
  lemma {:induction false} DedupOfDistinct(xs: seq<int>)
    requires NoDuplicates(xs)
    ensures Dedup(xs) == xs
  {
    if xs != [] {
      var init := xs[..|xs| - 1];
      DedupOfDistinct(init);
      DedupMembers(init);
      assert xs == init + [xs[|xs| - 1]];
    }
  }

  /**
   * The host test's spaced list " a, b ,a " (there a = 7585013353 and
   * b = -100222333444), for any two distinct IDs: the padding is trimmed and
   * the repeated ID is collapsed.
   */
  lemma SpacedListWithRepeat(a: int, b: int)
    requires a != b && a != 0 && b != 0 && InInt64(a) && InInt64(b)
    ensures ParseIds(JoinWith(Entries([a, b, a], [" ", " ", ""], ["", " ", " "]), [',']), MaxAllowedChatIds)
      == Some([a, b])
  {
    ParseIdsRoundTrip([a, b, a], [" ", " ", ""], ["", " ", " "], MaxAllowedChatIds);
    assert [a, b, a][..2] == [a, b];
    assert Dedup([a]) == [a];
    assert Dedup([a, b]) == [a, b];
  }

  // ---------------------------------------------------------------------------
  // The C functions

  /** The cursors of one parse step delimit the trimmed token of the field. */
  lemma {:induction false} TokenAt(s: string, fieldStart: nat, tokenStart: nat, tokenEnd: nat, stop: nat)
    requires fieldStart <= tokenStart <= tokenEnd <= stop <= |s|
    requires forall k :: fieldStart <= k < tokenStart ==> IsSpace(s[k])
    requires tokenStart == |s| || !IsSpace(s[tokenStart])
    requires forall k :: tokenEnd <= k < stop ==> IsSpace(s[k])
    requires tokenEnd == tokenStart || !IsSpace(s[tokenEnd - 1])
    ensures Trim(s[fieldStart..stop]) == s[tokenStart..tokenEnd]
  {
    var f := s[fieldStart..stop];
    var i, j := tokenStart - fieldStart, tokenEnd - fieldStart;
    assert forall k :: 0 <= k < i ==> IsSpace(f[k]) by {
      forall k | 0 <= k < i ensures IsSpace(f[k]) {
        assert f[k] == s[fieldStart + k];
      }
    }
    assert forall k :: j <= k < |f| ==> IsSpace(f[k]) by {
      forall k | j <= k < |f| ensures IsSpace(f[k]) {
        assert f[k] == s[fieldStart + k];
      }
    }
    assert i < |f| ==> f[i] == s[tokenStart];
    assert j > i ==> f[j - 1] == s[tokenEnd - 1];
    assert f[i..j] == s[tokenStart..tokenEnd] by {
      forall k | 0 <= k < j - i ensures f[i..j][k] == s[tokenStart..tokenEnd][k] {
        assert f[i..j][k] == f[i + k] == s[tokenStart + k];
      }
    }
    TrimAt(f, i, j);
  }

  /** Where the parse loop's token end stops when it is moved back from end
      over trailing isspace(), never before start. */
  function BackOverSpace(s: string, start: nat, end: nat): (j: nat)
    requires start <= end <= |s|
    ensures start <= j <= end
    ensures j == start || !IsSpace(s[j - 1])
    decreases end - start
  {
    if end > start && IsSpace(s[end - 1]) then BackOverSpace(s, start, end - 1) else end
  }

  /** Every character the token end moves back over is a space. */
  lemma {:induction false} BackOverSpaceAll(s: string, start: nat, end: nat)
    requires start <= end <= |s|
    ensures forall k :: BackOverSpace(s, start, end) <= k < end ==> IsSpace(s[k])
    decreases end - start
  {
    if end > start && IsSpace(s[end - 1]) {
      BackOverSpaceAll(s, start, end - 1);
    }
  }

  /** The cursors of one round: the field ends at stop, and the token they
      delimit is the trimmed field. */
  lemma RoundToken(input: string, at: nat, tokenStart: nat, tokenEnd: nat, stop: nat)
    requires at <= |input|
    requires tokenStart == SkipFrom(input, at, Space)
    requires stop == SkipFrom(input, tokenStart, NonComma)
    requires tokenEnd == BackOverSpace(input, tokenStart, stop)
    ensures SkipFrom(input, at, NonComma) == stop
    ensures Trim(Span(input, at, stop)) == Span(input, tokenStart, tokenEnd)
  {
    SkipFromAll(input, at, Space);
    SkipThrough(input, at, tokenStart, NonComma);
    BackOverSpaceAll(input, tokenStart, stop);
    TokenAt(input, at, tokenStart, tokenEnd, stop);
    SpanIsSlice(input, tokenStart, tokenEnd);
    SpanIsSlice(input, at, stop);
  }

  /** The first field of input from at on, which ends at stop, and the
      fields after it. */
  lemma FieldAt(input: string, at: nat, stop: nat)
    requires at <= |input| && stop == SkipFrom(input, at, NonComma)
    ensures FieldsFrom(input, at)[0] == Span(input, at, stop)
    ensures stop == |input| ==> |FieldsFrom(input, at)| == 1
    ensures stop < |input| ==> FieldsFrom(input, at)[1..] == FieldsFrom(input, stop + 1)
  {
  }

  /** The tokens of the fields of input from at on: the first field's, then
      those of the fields after its comma. */
  lemma FieldTokens(input: string, at: nat, stop: nat)
    requires at <= |input| && stop == SkipFrom(input, at, NonComma)
    ensures var b := Tokens(FieldsFrom(input, at));
      && b[0] == TokenOf(Trim(Span(input, at, stop)))
      && (stop == |input| ==> b[1..] == [])
      && (stop < |input| ==> b[1..] == Tokens(FieldsFrom(input, stop + 1)))
  {
    FieldAt(input, at, stop);
    TokensCons(FieldsFrom(input, at));
  }

  /** The first token of a list of fields, and the rest. */
  lemma TokensCons(fs: seq<string>)
    requires fs != []
    ensures Tokens(fs)[0] == TokenOf(Trim(fs[0])) && Tokens(fs)[1..] == Tokens(fs[1..])
  {
  }

  /**
   * One round of the parse loop: absorbing the tokens of the fields from at
   * on absorbs the first field's token, which ends at stop, and then, unless
   * the list has ended there or been rejected, the fields after its comma.
   */
  lemma AbsorbField(input: string, at: nat, stop: nat, acc: seq<int>, maxIds: nat)
    requires at <= |input| && stop == SkipFrom(input, at, NonComma)
    ensures Absorb(Tokens(FieldsFrom(input, at)), acc, maxIds) ==
      match AbsorbToken(TokenOf(Trim(Span(input, at, stop))), acc, maxIds)
      case None => None
      case Some(acc') =>
        if stop == |input| then Some(acc') else Absorb(Tokens(FieldsFrom(input, stop + 1)), acc', maxIds)
  {
    FieldTokens(input, at, stop);
  }

  /**
   * The cursor loops of one field: skip leading isspace() from fieldStart,
   * run to the next comma or the end of the input (stop), then move the token
   * end back over trailing isspace(). The token is Span(input, tokenStart, tokenEnd).
   */
  method ScanField(input: string, fieldStart: nat) returns (tokenStart: nat, tokenEnd: nat, stop: nat)
    requires fieldStart <= |input|
    ensures tokenStart == SkipFrom(input, fieldStart, Space)
    ensures stop == SkipFrom(input, tokenStart, NonComma)
    ensures tokenEnd == BackOverSpace(input, tokenStart, stop)
  {
    tokenStart := Skip(input, fieldStart, Space);
    stop := Skip(input, tokenStart, NonComma);
    tokenEnd := stop;
    while tokenEnd > tokenStart && IsSpace(input[tokenEnd - 1])
      invariant tokenStart <= tokenEnd <= stop
      invariant BackOverSpace(input, tokenStart, tokenEnd) == BackOverSpace(input, tokenStart, stop)
    {
      tokenEnd := tokenEnd - 1;
    }
  }

  /**
   * The body of the parse loop for one non-empty token: convert it, look for
   * the ID among outIds[0..count), and store it at outIds[count] when it is
   * new and there is room. stored is false when the list must be rejected.
   */
  method StoreToken(token: string, outIds: array<int>, count: nat, maxIds: nat)
    returns (stored: bool, newCount: nat)
    requires token != []
    requires count <= maxIds <= outIds.Length
    modifies outIds
    ensures count <= newCount <= maxIds
    ensures stored <==> AbsorbToken(TokenOf(token), old(outIds[..count]), maxIds).Some?
    ensures stored ==> outIds[..newCount] == AbsorbToken(TokenOf(token), old(outIds[..count]), maxIds).value
    ensures forall k :: 0 <= k < outIds.Length && !(count <= k < newCount) ==> outIds[k] == old(outIds[k])
  {
    var parsed := ParseToken(token);
    if parsed.None? {
      return false, count;
    }
    var id := parsed.value;
    var duplicate := false;
    var i := 0;
    while i < count && !duplicate
      invariant i <= count
      invariant duplicate ==> id in outIds[..count]
      invariant !duplicate ==> id !in outIds[..i]
    {
      if outIds[i] == id {
        duplicate := true;
      }
      i := i + 1;
    }
    if duplicate {
      return true, count;
    }
    if count >= maxIds {
      return false, count;
    }
    outIds[count] := id;
    assert outIds[..count + 1] == old(outIds[..count]) + [id];
    return true, count + 1;
  }

  /**
   * One round of the parse loop: scan the field at fieldStart, and store its
   * token unless it is empty. stop is where the field ends (a comma or the
   * end); the IDs stored so far are outIds[..count].
   */
  method ParseField(input: string, fieldStart: nat, outIds: array<int>, count: nat, maxIds: nat,
                    ghost acc: seq<int>, ghost whole: Option<seq<int>>)
    returns (stored: bool, newCount: nat, stop: nat)
    requires fieldStart <= |input| && count <= maxIds <= outIds.Length
    requires acc == outIds[..count]
    requires whole == Absorb(Tokens(FieldsFrom(input, fieldStart)), acc, maxIds)
    modifies outIds
    ensures fieldStart <= stop <= |input| && newCount <= maxIds
    ensures !stored ==> whole == None
    ensures stored && stop == |input| ==> whole == Some(outIds[..newCount])
    ensures stored && stop < |input| ==>
      whole == Absorb(Tokens(FieldsFrom(input, stop + 1)), outIds[..newCount], maxIds)
    ensures forall k :: maxIds <= k < outIds.Length ==> outIds[k] == old(outIds[k])
  {
    var tokenStart, tokenEnd;
    tokenStart, tokenEnd, stop := ScanField(input, fieldStart);
    RoundToken(input, fieldStart, tokenStart, tokenEnd, stop);
    AbsorbField(input, fieldStart, stop, acc, maxIds);
    newCount := count;
    stored := true;
    if tokenEnd > tokenStart {
      stored, newCount := StoreToken(Span(input, tokenStart, tokenEnd), outIds, count, maxIds);
    }
  }

  /**
   * The loop of telegram_chat_ids_parse, one field per round; each new ID is
   * stored at outIds[count]. On success the IDs stored are what Absorb keeps
   * of the tokens of the fields; on failure Absorb rejects the list.
   */
  method ParseList(input: string, outIds: array<int>, maxIds: nat) returns (ok: bool, count: nat)
    requires 0 < maxIds <= outIds.Length
    modifies outIds
    ensures count <= maxIds
    ensures Absorb(Tokens(Fields(input)), [], maxIds) == if ok then Some(outIds[..count]) else None
    ensures forall k :: maxIds <= k < outIds.Length ==> outIds[k] == old(outIds[k])
  {
    var cursor := 0;
    count := 0;
    ghost var acc: seq<int> := [];
    ghost var whole := Absorb(Tokens(Fields(input)), [], maxIds);
    while true
      invariant cursor <= |input|
      invariant count <= maxIds
      invariant acc == outIds[..count]
      invariant whole == Absorb(Tokens(FieldsFrom(input, cursor)), acc, maxIds)
      invariant forall k :: maxIds <= k < outIds.Length ==> outIds[k] == old(outIds[k])
      decreases |input| - cursor
    {
      var stop;
      ok, count, stop := ParseField(input, cursor, outIds, count, maxIds, acc, whole);
      if !ok {
        return false, 0;
      }
      acc := outIds[..count];
      if stop == |input| {
        return true, count;
      }
      cursor := stop + 1;
    }
  }

  /**
   * telegram_chat_ids_parse: no input (NULL), no array or no capacity fails at
   * once and leaves *out_count alone (priorCount is its value on entry);
   * otherwise the list is parsed into outIds and outCount is the value left
   * in *out_count. A list with no ID fails.
   */
  method Parse(input: Option<string>, outIds: array?<int>, maxIds: nat, priorCount: nat)
    returns (ok: bool, outCount: nat)
    requires outIds != null ==> maxIds <= outIds.Length
    modifies outIds
    ensures input.None? || outIds == null || maxIds == 0 ==> !ok && outCount == priorCount
    ensures outIds != null && (input.None? || maxIds == 0) ==> unchanged(outIds)
    ensures input.Some? && outIds != null && maxIds > 0 ==> (ok <==> ParseIds(input.value, maxIds).Some?)
    ensures ok ==>
      && input.Some? && outIds != null && outCount <= maxIds
      && outIds[..outCount] == ParseIds(input.value, maxIds).value
    ensures input.Some? && outIds != null && maxIds > 0 && !ok ==> outCount == 0
    ensures outIds != null ==> forall k :: maxIds <= k < outIds.Length ==> outIds[k] == old(outIds[k])
  {
    if input.None? || outIds == null || maxIds == 0 {
      return false, priorCount;
    }
    var stored, count := ParseList(input.value, outIds, maxIds);
    if !stored || count == 0 {
      return false, 0;
    }
    return true, count;
  }

  /** telegram_chat_ids_contains: a nonzero ID found among ids[0..count). */
  method Contains(ids: array?<int>, count: nat, chatId: int) returns (found: bool)
    requires ids != null ==> count <= ids.Length
    ensures found <==> ids != null && count > 0 && chatId != 0 && chatId in ids[..count]
  {
    if ids == null || count == 0 || chatId == 0 {
      return false;
    }
    for i := 0 to count
      invariant chatId !in ids[..i]
    {
      if ids[i] == chatId {
        return true;
      }
    }
    return false;
  }

  /**
   * telegram_chat_ids_resolve_target: no requested ID means the primary chat;
   * an allowed requested ID is kept; any other request resolves to the drop
   * sentinel 0 and is never redirected to the primary chat.
   */
  method ResolveTarget(ids: array?<int>, count: nat, primaryId: int, requestedId: int)
    returns (target: int)
    requires ids != null ==> count <= ids.Length
    ensures requestedId == 0 ==> target == primaryId
    ensures requestedId != 0 && ids != null && requestedId in ids[..count] ==> target == requestedId
    ensures requestedId != 0 && !(ids != null && requestedId in ids[..count]) ==> target == 0
  {
    if requestedId == 0 {
      return primaryId;
    }
    var allowed := Contains(ids, count, requestedId);
    if allowed {
      return requestedId;
    }
    return 0;
  }
}
