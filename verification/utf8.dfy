/**
 UTF-8 in both directions: the encoder of the keyboard
 (kernel/src/core/keyboard.c) and the incremental decoder of the console
 (kernel/src/core/console.c), against section 3 of RFC 3629.
 */
module Utf8 {
  import opened Common

  predicate IsScalar(cp: nat) {
    cp <= 0x10FFFF && !(0xD800 <= cp <= 0xDFFF)
  }

  /** `kbd_emit_utf8`: surrogates and values above 0x10FFFF produce nothing. */
  function Encode(cp: nat): seq<Byte> {
    if cp <= 0x7F then [cp]
    else if cp <= 0x7FF then [0xC0 + cp / 64, 0x80 + cp % 64]
    else if cp <= 0xFFFF then
      if 0xD800 <= cp <= 0xDFFF then []
      else [0xE0 + cp / 4096, 0x80 + cp / 64 % 64, 0x80 + cp % 64]
    else if cp <= 0x10FFFF then
      [0xF0 + cp / 0x4_0000, 0x80 + cp / 4096 % 64, 0x80 + cp / 64 % 64, 0x80 + cp % 64]
    else []
  }

  function EncodeAll(cps: seq<nat>): seq<Byte> {
    if cps == [] then [] else Encode(cps[0]) + EncodeAll(cps[1..])
  }

  /** `utf8_codepoint`, `utf8_needed`, `utf8_total`. */
  datatype Decoder = Decoder(codepoint: nat, needed: nat, total: nat)

  const READY := Decoder(0, 0, 0)

  /** What one byte makes the console show: nothing yet, a decoded value, or the replacement. */
  datatype Emit = Pending | Decoded(cp: nat) | Bad

  /** The checks on a completed sequence: shortest form, range, no surrogate. */
  predicate Acceptable(total: nat, cp: nat) {
    && !(total == 1 && cp < 0x80)
    && !(total == 2 && cp < 0x800)
    && !(total == 3 && cp < 0x10000)
    && IsScalar(cp)
  }

  /** `console_emit_utf8_byte`, for a byte at or above 0x80. */
  function Feed(d: Decoder, b: Byte): (Decoder, Emit) {
    if d.needed == 0 then
      if 0xC0 <= b < 0xE0 then (Decoder(b - 0xC0, 1, 1), Pending)
      else if 0xE0 <= b < 0xF0 then (Decoder(b - 0xE0, 2, 2), Pending)
      else if 0xF0 <= b < 0xF8 then (Decoder(b - 0xF0, 3, 3), Pending)
      else (d, Bad)
    else if !(0x80 <= b < 0xC0) then (READY, Bad)
    else
      var cp := d.codepoint * 64 + (b - 0x80);
      if d.needed > 1 then (Decoder(cp, d.needed - 1, d.total), Pending)
      else (READY, if Acceptable(d.total, cp) then Decoded(cp) else Bad)
  }

  /** Ground-state bytes from 0x20: those below 0x80 bypass the decoder and leave it as it is. */
  function Ground(d: Decoder, b: Byte): (Decoder, Emit) {
    if b < 0x80 then (d, Decoded(b)) else Feed(d, b)
  }

  function Decode(d: Decoder, bytes: seq<Byte>): (Decoder, seq<Emit>)
    decreases |bytes|
  {
    if bytes == [] then (d, [])
    else
      var (d1, e) := Ground(d, bytes[0]);
      var (d2, es) := Decode(d1, bytes[1..]);
      (d2, Visible(e) + es)
  }

  function Visible(e: Emit): seq<Emit> {
    if e.Pending? then [] else [e]
  }

  /** Between sequences the decoder holds nothing; inside one it needs at most three bytes, and the value fits 21 bits. */
  predicate DecoderOk(d: Decoder) {
    && d.needed <= d.total <= 3
    && (d.needed == 0 ==> d == READY)
    && (d.needed > 0 ==> d.codepoint < if d.needed == 3 then 8 else if d.needed == 2 then 0x200 else 0x8000)
  }

  // ---------------------------------------------------------------------
  // Decoding undoes encoding
  // ---------------------------------------------------------------------

  lemma {:induction false} DecodeAppend(d: Decoder, xs: seq<Byte>, ys: seq<Byte>)
    ensures
      var (d1, es) := Decode(d, xs);
      var (d2, fs) := Decode(d1, ys);
      Decode(d, xs + ys) == (d2, es + fs)
    decreases |xs|
  {
    if xs == [] {
      assert xs + ys == ys;
      assert [] + Decode(d, ys).1 == Decode(d, ys).1;
    } else {
      var (d1, e) := Ground(d, xs[0]);
      DecodeAppend(d1, xs[1..], ys);
      assert xs + ys == [xs[0]] + (xs[1..] + ys);
      DecodeStep(d, xs[0], xs[1..] + ys);
      var es := Decode(d1, xs[1..]).1;
      var fs := Decode(Decode(d1, xs[1..]).0, ys).1;
      assert Visible(e) + (es + fs) == (Visible(e) + es) + fs;
    }
  }

  lemma DecodeStep(d: Decoder, b: Byte, rest: seq<Byte>)
    ensures
      var (d1, e) := Ground(d, b);
      var (d2, es) := Decode(d1, rest);
      && Decode(d, [b] + rest) == (d2, Visible(e) + es)
      && Visible(e) + es == if e.Pending? then es else [e] + es
  {
    assert ([b] + rest)[1..] == rest;
  }

  /** The value reached from v after these continuation bytes. */
  function Extended(v: nat, bytes: seq<Byte>): int {
    if bytes == [] then v
    else Extended(v, bytes[..|bytes| - 1]) * 64 + (bytes[|bytes| - 1] as int - 0x80)
  }

  lemma ExtendedByUpTo3(v: nat, x: Byte, y: Byte, z: Byte)
    ensures Extended(v, []) == v
    ensures Extended(v, [x]) == v * 64 + (x as int - 0x80)
    ensures Extended(v, [x, y]) == (v * 64 + (x as int - 0x80)) * 64 + (y as int - 0x80)
    ensures Extended(v, [x, y, z]) == ((v * 64 + (x as int - 0x80)) * 64 + (y as int - 0x80)) * 64 + (z as int - 0x80)
  {
    assert [x][..0] == [];
    assert [x, y][..1] == [x];
    assert [x, y, z][..2] == [x, y];
  }

  lemma {:induction false} ExtendFront(v: nat, bytes: seq<Byte>)
    requires bytes != [] && forall i :: 0 <= i < |bytes| ==> 0x80 <= bytes[i]
    ensures Extended(v, bytes) == Extended(v * 64 + (bytes[0] as int - 0x80), bytes[1..])
    decreases |bytes|
  {
    if |bytes| == 1 {
      assert bytes[..0] == [];
    } else {
      var front := bytes[..|bytes| - 1];
      ExtendFront(v, front);
      assert bytes[1..][..|bytes| - 2] == front[1..];
    }
  }

  /** From inside a sequence, the continuation bytes still needed complete the value. */
  lemma {:induction false} DecodeRest(d: Decoder, bytes: seq<Byte>, cp: nat)
    requires |bytes| == d.needed > 0 && forall i :: 0 <= i < |bytes| ==> 0x80 <= bytes[i] < 0xC0
    requires Extended(d.codepoint, bytes) == cp && Acceptable(d.total, cp)
    ensures Decode(d, bytes) == (READY, [Decoded(cp)])
    decreases |bytes|
  {
    var b, rest := bytes[0], bytes[1..];
    assert bytes == [b] + rest;
    DecodeStep(d, b, rest);
    ExtendFront(d.codepoint, bytes);
    if rest == [] {
      assert Extended(d.codepoint * 64 + (b as int - 0x80), rest) == cp;
      assert Ground(d, b) == (READY, Decoded(cp));
      assert [Decoded(cp)] + [] == [Decoded(cp)];
    } else {
      DecodeRest(Ground(d, b).0, rest, cp);
    }
  }

  /** A lead byte, continuation bytes that spell cp after it, and a value that passes the checks. */
  predicate Spells(e: seq<Byte>, cp: nat) {
    && 2 <= |e| <= 4
    && Tag(|e| - 1) <= e[0] < Tag(|e| - 1) + Leads(|e| - 1)
    && (forall i :: 1 <= i < |e| ==> 0x80 <= e[i] < 0xC0)
    && Extended(e[0] as int - Tag(|e| - 1), e[1..]) == cp
    && Acceptable(|e| - 1, cp)
  }

  lemma Digits(cp: nat)
    ensures cp / 64 == cp / 4096 * 64 + cp / 64 % 64
    ensures cp / 4096 == cp / 0x4_0000 * 64 + cp / 4096 % 64
  {
    DivModUnique(cp / 64 / 64, 4096, cp / 64 % 64 * 64 + cp % 64);
    DivModUnique(cp / 4096 / 64, 0x4_0000, cp / 4096 % 64 * 4096 + cp % 4096);
  }

  lemma EncodeSpells(cp: nat)
    requires IsScalar(cp) && cp >= 0x80
    ensures Spells(Encode(cp), cp)
  {
    Digits(cp);
    if cp <= 0x7FF {
      Spells2(cp);
    } else if cp <= 0xFFFF {
      Spells3(cp);
    } else {
      Spells4(cp);
    }
  }

  lemma Spells2(cp: nat)
    requires 0x80 <= cp <= 0x7FF
    ensures Spells([0xC0 + cp / 64, 0x80 + cp % 64], cp)
  {
    var e: seq<Byte> := [0xC0 + cp / 64, 0x80 + cp % 64];
    assert e[1..] == [e[1]];
    ExtendedByUpTo3(cp / 64, e[1], 0, 0);
  }

  lemma Spells3(cp: nat)
    requires 0x800 <= cp <= 0xFFFF && IsScalar(cp)
    requires cp / 64 == cp / 4096 * 64 + cp / 64 % 64
    ensures Spells([0xE0 + cp / 4096, 0x80 + cp / 64 % 64, 0x80 + cp % 64], cp)
  {
    var e: seq<Byte> := [0xE0 + cp / 4096, 0x80 + cp / 64 % 64, 0x80 + cp % 64];
    assert e[1..] == [e[1], e[2]];
    ExtendedByUpTo3(cp / 4096, e[1], e[2], 0);
  }

  lemma Spells4(cp: nat)
    requires 0x1_0000 <= cp <= 0x10FFFF
    requires cp / 64 == cp / 4096 * 64 + cp / 64 % 64
    requires cp / 4096 == cp / 0x4_0000 * 64 + cp / 4096 % 64
    ensures Spells([0xF0 + cp / 0x4_0000, 0x80 + cp / 4096 % 64, 0x80 + cp / 64 % 64, 0x80 + cp % 64], cp)
  {
    var e: seq<Byte> := [0xF0 + cp / 0x4_0000, 0x80 + cp / 4096 % 64, 0x80 + cp / 64 % 64, 0x80 + cp % 64];
    assert e[1..] == [e[1], e[2], e[3]];
    ExtendedByUpTo3(cp / 0x4_0000, e[1], e[2], e[3]);
  }

  lemma DecodeOne(cp: nat)
    requires IsScalar(cp)
    ensures Decode(READY, Encode(cp)) == (READY, [Decoded(cp)])
  {
    var e := Encode(cp);
    if cp <= 0x7F {
      DecodeStep(READY, e[0], []);
      assert e == [e[0]] + [];
      assert [Decoded(cp)] + [] == [Decoded(cp)];
    } else {
      EncodeSpells(cp);
      DecodeStep(READY, e[0], e[1..]);
      assert e == [e[0]] + e[1..];
      DecodeRest(Ground(READY, e[0]).0, e[1..], cp);
    }
  }

  /** 0xC0, 0xE0 and 0xF0, and how many lead bytes carry each tag. */
  function Tag(total: nat): int { if total == 1 then 0xC0 else if total == 2 then 0xE0 else 0xF0 }
  function Leads(total: nat): int { if total == 1 then 32 else if total == 2 then 16 else 8 }

  function Shown(cps: seq<nat>): seq<Emit> {
    if cps == [] then [] else [Decoded(cps[0])] + Shown(cps[1..])
  }

  /** Any sequence of scalar values survives the keyboard's encoder and the console's decoder. */
  lemma {:induction false} DecodeUndoesEncode(cps: seq<nat>)
    requires forall cp :: cp in cps ==> IsScalar(cp)
    ensures Decode(READY, EncodeAll(cps)) == (READY, Shown(cps))
  {
    if cps != [] {
      DecodeOne(cps[0]);
      DecodeUndoesEncode(cps[1..]);
      DecodeAppend(READY, Encode(cps[0]), EncodeAll(cps[1..]));
    }
  }

  // ---------------------------------------------------------------------
  // ASCII bytes pass through an open sequence
  // ---------------------------------------------------------------------

  /** The bytes from 0x80 on, and the bytes below. */
  function High(bytes: seq<Byte>): seq<Byte> {
    if bytes == [] then [] else if bytes[0] >= 0x80 then [bytes[0]] + High(bytes[1..]) else High(bytes[1..])
  }

  function Low(bytes: seq<Byte>): seq<nat> {
    if bytes == [] then [] else if bytes[0] < 0x80 then [bytes[0] as nat] + Low(bytes[1..]) else Low(bytes[1..])
  }

  /** The same split of the emissions: values below 0x80 against everything else. */
  predicate IsLow(e: Emit) {
    e.Decoded? && e.cp < 0x80
  }

  function HighEmits(es: seq<Emit>): seq<Emit> {
    if es == [] then [] else if IsLow(es[0]) then HighEmits(es[1..]) else [es[0]] + HighEmits(es[1..])
  }

  function LowEmits(es: seq<Emit>): seq<nat> {
    if es == [] then [] else if IsLow(es[0]) then [es[0].cp] + LowEmits(es[1..]) else LowEmits(es[1..])
  }

  lemma FeedIsNeverLow(d: Decoder, b: Byte)
    requires DecoderOk(d) && b >= 0x80
    ensures !IsLow(Feed(d, b).1) && DecoderOk(Feed(d, b).0)
  {
  }

  lemma SplitVisible(e: Emit, es: seq<Emit>)
    ensures HighEmits(Visible(e) + es) == (if IsLow(e) then [] else Visible(e)) + HighEmits(es)
    ensures LowEmits(Visible(e) + es) == (if IsLow(e) then [e.cp] else []) + LowEmits(es)
  {
    if e.Pending? {
      assert [] + es == es;
    } else {
      assert ([e] + es)[1..] == es;
    }
  }

  /**
   For every stream: the bytes below 0x80 appear as themselves, in order, and
   the rest of what is shown, like the decoder's state, is that of the stream
   without them. A sequence survives characters in its middle.
   */
  lemma {:induction false} AsciiPassesThrough(d: Decoder, bytes: seq<Byte>)
    requires DecoderOk(d)
    ensures Decode(d, bytes).0 == Decode(d, High(bytes)).0
    ensures HighEmits(Decode(d, bytes).1) == Decode(d, High(bytes)).1
    ensures LowEmits(Decode(d, bytes).1) == Low(bytes)
    decreases |bytes|
  {
    if bytes != [] {
      var b, rest := bytes[0], bytes[1..];
      var (d1, e) := Ground(d, b);
      assert bytes == [b] + rest;
      DecodeStep(d, b, rest);
      SplitVisible(e, Decode(d1, rest).1);
      if b < 0x80 {
        assert High(bytes) == High(rest);
        AsciiPassesThrough(d, rest);
      } else {
        FeedIsNeverLow(d, b);
        AsciiPassesThrough(d1, rest);
        DecodeStep(d, b, High(rest));
      }
    }
  }

  // ---------------------------------------------------------------------
  // Whatever is accepted was encoded exactly so
  // ---------------------------------------------------------------------

  /** One unit of a decoded stream: an ASCII character, or an emission with the stretch from its first to its last byte. */
  datatype Unit = Char(b: Byte) | Spanned(emit: Emit, span: seq<Byte>)

  /** Decode while remembering the stretch since the lead byte of the open sequence. */
  function Trace(d: Decoder, held: seq<Byte>, bytes: seq<Byte>): (seq<Unit>, seq<Byte>)
    decreases |bytes|
  {
    if bytes == [] then ([], held)
    else if bytes[0] < 0x80 then
      var (units, left) := Trace(d, if d.needed == 0 then held else held + [bytes[0]], bytes[1..]);
      ([Char(bytes[0])] + units, left)
    else
      var (d1, e) := Feed(d, bytes[0]);
      var now := held + [bytes[0]];
      if e.Pending? then Trace(d1, now, bytes[1..])
      else
        var (units, left) := Trace(d1, [], bytes[1..]);
        ([Spanned(e, now)] + units, left)
  }

  /** The bytes from 0x80 on inside the units, in order. */
  function HighSpans(units: seq<Unit>): seq<Byte> {
    if units == [] then []
    else if units[0].Char? then HighSpans(units[1..])
    else High(units[0].span) + HighSpans(units[1..])
  }

  function Emits(units: seq<Unit>): seq<Emit> {
    if units == [] then []
    else [if units[0].Char? then Decoded(units[0].b) else units[0].emit] + Emits(units[1..])
  }

  /** The bytes held back are a lead byte and the continuations read since, and spell the partial value. */
  predicate Holds(d: Decoder, held: seq<Byte>) {
    if d.needed == 0 then d == READY && held == []
    else
      && 1 <= d.needed <= d.total <= 3
      && |held| == 1 + d.total - d.needed
      && Tag(d.total) <= held[0] < Tag(d.total) + Leads(d.total)
      && (forall i :: 1 <= i < |held| ==> 0x80 <= held[i] < 0xC0)
      && d.codepoint == Extended(held[0] as int - Tag(d.total), held[1..])
  }

  /** A complete sequence that passes the checks is the encoding of its value. */
  lemma CompleteIsEncoding(held: seq<Byte>, cp: nat)
    requires Spells(held, cp)
    ensures held == Encode(cp) && cp >= 0x80
  {
    if |held| == 2 {
      Complete2(held, cp);
    } else if |held| == 3 {
      Complete3(held, cp);
    } else {
      Complete4(held, cp);
    }
  }

  lemma Complete2(held: seq<Byte>, cp: nat)
    requires Spells(held, cp) && |held| == 2
    ensures 0x80 <= cp <= 0x7FF && held == [0xC0 + cp / 64, 0x80 + cp % 64]
  {
    var a, b := held[0] as int - 0xC0, held[1] as int - 0x80;
    ExtendedByUpTo3(a, held[1], 0, 0);
    assert held[1..] == [held[1]];
    DivModUnique(a, 64, b);
  }

  lemma Complete3(held: seq<Byte>, cp: nat)
    requires Spells(held, cp) && |held| == 3
    ensures 0x800 <= cp <= 0xFFFF && held == [0xE0 + cp / 4096, 0x80 + cp / 64 % 64, 0x80 + cp % 64]
  {
    var a, b, c := held[0] as int - 0xE0, held[1] as int - 0x80, held[2] as int - 0x80;
    ExtendedByUpTo3(a, held[1], held[2], 0);
    assert held[1..] == [held[1], held[2]];
    ThreeDigits(a, b, c);
  }

  lemma Complete4(held: seq<Byte>, cp: nat)
    requires Spells(held, cp) && |held| == 4
    ensures 0x1_0000 <= cp <= 0x10FFFF
    ensures held == [0xF0 + cp / 0x4_0000, 0x80 + cp / 4096 % 64, 0x80 + cp / 64 % 64, 0x80 + cp % 64]
  {
    var a, b, c, d := held[0] as int - 0xF0, held[1] as int - 0x80, held[2] as int - 0x80, held[3] as int - 0x80;
    ExtendedByUpTo3(a, held[1], held[2], held[3]);
    assert held[1..] == [held[1], held[2], held[3]];
    FourDigits(a, b, c, d);
  }

  lemma ThreeDigits(a: int, b: int, c: int)
    requires 0 <= a && 0 <= b < 64 && 0 <= c < 64
    ensures
      var v := (a * 64 + b) * 64 + c;
      v % 64 == c && v / 64 == a * 64 + b && v / 64 % 64 == b && v / 4096 == a
  {
    DivModUnique(a * 64 + b, 64, c);
    DivModUnique(a, 64, b);
    DivModUnique(a, 4096, b * 64 + c);
  }

  lemma FourDigits(a: int, b: int, c: int, d: int)
    requires 0 <= a && 0 <= b < 64 && 0 <= c < 64 && 0 <= d < 64
    ensures
      var v := ((a * 64 + b) * 64 + c) * 64 + d;
      v % 64 == d && v / 64 % 64 == c && v / 4096 % 64 == b && v / 0x4_0000 == a
  {
    var v := ((a * 64 + b) * 64 + c) * 64 + d;
    DivModUnique((a * 64 + b) * 64 + c, 64, d);
    ThreeDigits(a, b, c);
    DivModUnique(a * 64 + b, 4096, c * 64 + d);
    DivModUnique(a, 0x4_0000, b * 4096 + c * 64 + d);
  }

  lemma FeedHolds(d: Decoder, held: seq<Byte>, b: Byte)
    requires Holds(d, held) && b >= 0x80
    ensures
      var (d1, e) := Feed(d, b);
      && Holds(d1, if e.Pending? then held + [b] else [])
      && (e.Decoded? ==> IsScalar(e.cp) && e.cp >= 0x80 && held + [b] == Encode(e.cp))
  {
    var now := held + [b];
    if d.needed > 0 && b < 0xC0 {
      var v := now[0] as int - Tag(d.total);
      assert now[1..] == held[1..] + [b];
      assert now[1..][..|now| - 2] == held[1..];
      assert Extended(v, now[1..]) == d.codepoint * 64 + (b as int - 0x80);
      if d.needed == 1 && Acceptable(d.total, Extended(v, now[1..])) {
        CompleteIsEncoding(now, Extended(v, now[1..]));
      }
    } else if d.needed == 0 {
      assert now == [b] && now[1..] == [];
    }
  }

  lemma {:induction false} HighAppend(xs: seq<Byte>, ys: seq<Byte>)
    ensures High(xs + ys) == High(xs) + High(ys)
    decreases |xs|
  {
    if xs == [] {
      assert xs + ys == ys;
    } else {
      HighAppend(xs[1..], ys);
      assert (xs + ys)[1..] == xs[1..] + ys;
      assert (xs + ys)[0] == xs[0];
    }
  }

  lemma HighAppendOne(xs: seq<Byte>, b: Byte)
    ensures High(xs + [b]) == if b >= 0x80 then High(xs) + [b] else High(xs)
  {
    HighAppend(xs, [b]);
    assert [b][1..] == [];
    assert High([b]) == if b >= 0x80 then [b] else [];
  }

  /** The trace after one more unit. */
  lemma UnitFirst(u: Unit, units: seq<Unit>)
    ensures Emits([u] + units) == [if u.Char? then Decoded(u.b) else u.emit] + Emits(units)
    ensures HighSpans([u] + units) == if u.Char? then HighSpans(units) else High(u.span) + HighSpans(units)
  {
    assert ([u] + units)[1..] == units;
  }

  lemma Regroup(xs: seq<Byte>, b: Byte, us: seq<Byte>, left: seq<Byte>, rest: seq<Byte>)
    requires us + left == [] + rest
    ensures (xs + [b] + us) + left == xs + ([b] + rest)
  {
    assert us + left == rest;
  }

  /** The units carry exactly the console's emissions, */
  lemma {:induction false} TraceEmits(d: Decoder, held: seq<Byte>, bytes: seq<Byte>)
    ensures Emits(Trace(d, held, bytes).0) == Decode(d, bytes).1
    decreases |bytes|
  {
    if bytes != [] {
      var b, rest := bytes[0], bytes[1..];
      assert bytes == [b] + rest;
      DecodeStep(d, b, rest);
      var (d1, e) := Ground(d, b);
      if b < 0x80 {
        var now := if d.needed == 0 then held else held + [b];
        TraceEmits(d, now, rest);
        UnitFirst(Char(b), Trace(d, now, rest).0);
      } else if e.Pending? {
        TraceEmits(d1, held + [b], rest);
      } else {
        TraceEmits(d1, [], rest);
        UnitFirst(Spanned(e, held + [b]), Trace(d1, [], rest).0);
      }
    }
  }

  /** and they and what is left over partition the bytes from 0x80 on. */
  lemma {:induction false} TracePartitions(d: Decoder, held: seq<Byte>, bytes: seq<Byte>)
    ensures HighSpans(Trace(d, held, bytes).0) + High(Trace(d, held, bytes).1) == High(held) + High(bytes)
    decreases |bytes|
  {
    if bytes == [] {
      assert [] + High(held) == High(held) + [];
    } else {
      var b, rest := bytes[0], bytes[1..];
      HighAppendOne(held, b);
      var (d1, e) := Ground(d, b);
      if b < 0x80 {
        var now := if d.needed == 0 then held else held + [b];
        TracePartitions(d, now, rest);
        UnitFirst(Char(b), Trace(d, now, rest).0);
      } else if e.Pending? {
        TracePartitions(d1, held + [b], rest);
        assert High(held) + [b] + High(rest) == High(held) + ([b] + High(rest));
      } else {
        TracePartitions(d1, [], rest);
        var (units, left) := Trace(d1, [], rest);
        UnitFirst(Spanned(e, held + [b]), units);
        Regroup(High(held), b, HighSpans(units), High(left), High(rest));
      }
    }
  }

  lemma {:induction false} AllHigh(bytes: seq<Byte>)
    ensures High(bytes) == bytes <==> forall i :: 0 <= i < |bytes| ==> bytes[i] >= 0x80
    ensures |High(bytes)| <= |bytes|
    decreases |bytes|
  {
    if bytes != [] {
      AllHigh(bytes[1..]);
      assert bytes == [bytes[0]] + bytes[1..];
    }
  }

  /**
   What is known of a unit: its high bytes encode its value, and they are all
   its bytes unless a character came between.
   */
  ghost predicate Encoded(u: Unit) {
    u.Spanned? && u.emit.Decoded? ==>
      && IsScalar(u.emit.cp) && u.emit.cp >= 0x80 && High(u.span) == Encode(u.emit.cp)
      && (u.span == Encode(u.emit.cp) <==> forall i :: 0 <= i < |u.span| ==> u.span[i] >= 0x80)
  }

  lemma NewUnit(d: Decoder, held: seq<Byte>, b: Byte)
    requires Holds(d, High(held)) && b >= 0x80
    ensures
      var (d1, e) := Feed(d, b);
      Holds(d1, High(if e.Pending? then held + [b] else [])) && Encoded(Spanned(e, held + [b]))
  {
    HighAppendOne(held, b);
    FeedHolds(d, High(held), b);
    AllHigh(held + [b]);
  }

  /**
   In every stream, the bytes from 0x80 on of an accepted sequence are exactly
   the encoding of its value; the stretch from its first to its last byte is
   that encoding if and only if no ASCII byte came while it was open.
   */
  lemma {:induction false} AcceptedBytesAreEncodings(d: Decoder, held: seq<Byte>, bytes: seq<Byte>)
    requires Holds(d, High(held))
    ensures forall u :: u in Trace(d, held, bytes).0 ==> Encoded(u)
    ensures Holds(Decode(d, bytes).0, High(Trace(d, held, bytes).1))
    decreases |bytes|
  {
    if bytes != [] {
      var b, rest := bytes[0], bytes[1..];
      HighAppendOne(held, b);
      if b < 0x80 {
        AcceptedBytesAreEncodings(d, if d.needed == 0 then held else held + [b], rest);
      } else {
        NewUnit(d, held, b);
        var (d1, e) := Feed(d, b);
        AcceptedBytesAreEncodings(d1, if e.Pending? then held + [b] else [], rest);
      }
    }
  }

  // ---------------------------------------------------------------------
  // What becomes of the bytes from 0x80 on, unit by unit
  // ---------------------------------------------------------------------

  predicate IsContinuation(b: Byte) { 0x80 <= b < 0xC0 }

  predicate IsLead(b: Byte) { 0xC0 <= b < 0xF8 }

  /** How many continuation bytes a lead byte announces. */
  function Continuations(lead: Byte): nat
    requires IsLead(lead)
  {
    if lead < 0xE0 then 1 else if lead < 0xF0 then 2 else 3
  }

  /** From 0x80 on, the encodings are the sequences that spell a scalar value in the shortest form. */
  lemma SpellingIsEncoding(e: seq<Byte>, cp: nat)
    ensures Spells(e, cp) <==> e == Encode(cp) && IsScalar(cp) && cp >= 0x80
  {
    if Spells(e, cp) {
      CompleteIsEncoding(e, cp);
    } else if IsScalar(cp) && cp >= 0x80 {
      EncodeSpells(cp);
    }
  }

  /** Fewer continuation bytes than needed show nothing yet. */
  lemma {:induction false} DecodePart(d: Decoder, bytes: seq<Byte>)
    requires |bytes| < d.needed && forall i :: 0 <= i < |bytes| ==> IsContinuation(bytes[i])
    ensures
      var (r, es) := Decode(d, bytes);
      es == [] && r.needed == d.needed - |bytes| && r.total == d.total && r.codepoint == Extended(d.codepoint, bytes)
    decreases |bytes|
  {
    if bytes == [] {
      return;
    }
    var d1 := Ground(d, bytes[0]).0;
    assert bytes == [bytes[0]] + bytes[1..];
    DecodeStep(d, bytes[0], bytes[1..]);
    DecodePart(d1, bytes[1..]);
    ExtendFront(d.codepoint, bytes);
  }

  lemma AfterLead(lead: Byte, bytes: seq<Byte>)
    requires IsLead(lead) && |bytes| < Continuations(lead) && forall i :: 0 <= i < |bytes| ==> IsContinuation(bytes[i])
    ensures
      var (d, es) := Decode(READY, [lead] + bytes);
      && es == [] && d.needed == Continuations(lead) - |bytes| && d.total == Continuations(lead)
      && d.codepoint == Extended(lead as int - Tag(Continuations(lead)), bytes)
  {
    var d := Ground(READY, lead).0;
    DecodeStep(READY, lead, bytes);
    DecodePart(d, bytes);
  }

  lemma DecodeByte(d: Decoder, b: Byte)
    ensures Decode(d, [b]) == (Ground(d, b).0, Visible(Ground(d, b).1))
  {
    assert [b][1..] == [];
    assert Visible(Ground(d, b).1) + [] == Visible(Ground(d, b).1);
  }

  /** A byte from 0x80 on that cannot begin a sequence is shown as a mistake. */
  lemma StrayByteIsBad(b: Byte)
    requires b >= 0x80 && !IsLead(b)
    ensures Decode(READY, [b]) == (READY, [Bad])
  {
    DecodeByte(READY, b);
  }

  /** A sequence broken off by another byte from 0x80 on is one mistake, which that byte is part of. */
  lemma BrokenSequenceIsBad(lead: Byte, bytes: seq<Byte>, b: Byte)
    requires IsLead(lead) && |bytes| < Continuations(lead) && forall i :: 0 <= i < |bytes| ==> IsContinuation(bytes[i])
    requires b >= 0x80 && !IsContinuation(b)
    ensures Decode(READY, ([lead] + bytes) + [b]) == (READY, [Bad])
  {
    AfterLead(lead, bytes);
    DecodeByte(Decode(READY, [lead] + bytes).0, b);
    DecodeAppend(READY, [lead] + bytes, [b]);
    assert [] + [Bad] == [Bad];
  }

  predicate IsComplete(e: seq<Byte>) {
    && e != [] && IsLead(e[0]) && |e| == Continuations(e[0]) + 1
    && forall i :: 1 <= i < |e| ==> IsContinuation(e[i])
  }

  /** The value that a complete sequence spells, acceptable or not. */
  function Spelled(e: seq<Byte>): int
    requires IsComplete(e)
  {
    Extended(e[0] as int - Tag(|e| - 1), e[1..])
  }

  lemma CompleteSequence(e: seq<Byte>)
    requires IsComplete(e)
    ensures Spelled(e) >= 0
    ensures Decode(READY, e) == (READY, [if Acceptable(|e| - 1, Spelled(e)) then Decoded(Spelled(e)) else Bad])
  {
    var n := |e| - 1;
    var front, last := e[1..n], e[n];
    AfterLead(e[0], front);
    LastByte(Decode(READY, [e[0]] + front).0, last);
    DecodeAppend(READY, [e[0]] + front, [last]);
    assert e == ([e[0]] + front) + [last];
    assert e[1..][..n - 1] == front;
  }

  lemma LastByte(d: Decoder, b: Byte)
    requires d.needed == 1 && IsContinuation(b)
    ensures
      var cp := d.codepoint * 64 + (b - 0x80);
      && Decode(d, [b]) == (READY, [if Acceptable(d.total, cp) then Decoded(cp) else Bad])
      && [] + Decode(d, [b]).1 == Decode(d, [b]).1
  {
    DecodeByte(d, b);
  }

  lemma CompleteSpells(e: seq<Byte>, cp: nat)
    requires IsComplete(e)
    ensures Spells(e, cp) <==> cp == Spelled(e) && Acceptable(|e| - 1, cp)
  {
  }

  /** A complete sequence is the code point it encodes, or one mistake if it is nobody's encoding. */
  lemma CompleteSequenceIsDecoded(e: seq<Byte>)
    requires IsComplete(e)
    ensures forall cp: nat :: Decode(READY, e) == (READY, [Decoded(cp)]) <==> IsScalar(cp) && e == Encode(cp)
    ensures Decode(READY, e) == (READY, [Bad]) <==> forall cp: nat :: IsScalar(cp) ==> e != Encode(cp)
  {
    CompleteSequence(e);
    forall cp: nat
      ensures IsScalar(cp) && e == Encode(cp) <==> cp == Spelled(e) && Acceptable(|e| - 1, cp)
    {
      CompleteSpells(e, cp);
      SpellingIsEncoding(e, cp);
    }
  }
}
