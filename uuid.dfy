/** The short random identifier both extractors fall back to when an item
    carries no id of its own (`getUUID`, defined identically in
    src/core/extractor.ts and src/situation/NormalItem.ts). The random draws
    `Math.random() * 16 | 0` are inputs here, one per template position. */
module Uuid {

  /** Every `x` becomes a random hex digit; a `y` would become one of 8, 9, a, b. */
  const Template: string := "xxxxxxxx"

  predicate IsLowerHex(c: char) {
    '0' <= c <= '9' || 'a' <= c <= 'f'
  }

  /** `v.toString(16)` for `0 <= v < 16`. */
  function HexDigit(v: nat): (c: char)
    requires v < 16
    ensures IsLowerHex(c)
  {
    if v < 10 then ('0' as int + v) as char else ('a' as int + v - 10) as char
  }

  /** `HexDigit` spells the sixteen values as the digits `0`-`9` then `a`-`f`. */
  lemma {:induction false} HexDigitSpelling(v: nat)
    requires v < 16
    ensures HexDigit(v) == "0123456789abcdef"[v]
  {
  }

  /** The value of a lower-case hex digit; inverse of `HexDigit`. */
  function HexValue(c: char): (v: nat)
    requires IsLowerHex(c)
    ensures v < 16 && HexDigit(v) == c
  {
    if c <= '9' then c as int - '0' as int else c as int - 'a' as int + 10
  }

  /** Draws that `Math.random() * 16 | 0` can produce, one per template position. */
  predicate ValidDraws(draws: seq<nat>) {
    |draws| == |Template| && forall i :: 0 <= i < |draws| ==> draws[i] < 16
  }

  /** The callback of `replace(/[xy]/g, ...)` applied position by position:
      `x` keeps the draw, `y` forces it into 8..11 (`(r & 0x3) | 0x8`). */
  function Fill(template: string, draws: seq<nat>): (u: string)
    requires |template| == |draws|
    requires forall i :: 0 <= i < |template| ==> template[i] in "xy"
    requires forall i :: 0 <= i < |draws| ==> draws[i] < 16
    ensures |u| == |template|
    ensures forall i :: 0 <= i < |u| ==> IsLowerHex(u[i])
    ensures forall i :: 0 <= i < |u| && template[i] == 'x' ==> HexValue(u[i]) == draws[i]
    ensures forall i :: 0 <= i < |u| && template[i] == 'y' ==> 8 <= HexValue(u[i]) < 12
    decreases |template|
  {
    if template == [] then []
    else
      var v := if template[0] == 'x' then draws[0] else draws[0] % 4 + 8;
      [HexDigit(v)] + Fill(template[1..], draws[1..])
  }

  /** `getUUID()`: exactly eight lower-case hex digits, the i-th being the
      i-th draw, so distinct draws give distinct identifiers. */
  function GetUUID(draws: seq<nat>): (u: string)
    requires ValidDraws(draws)
    ensures |u| == 8
    ensures forall i :: 0 <= i < 8 ==> IsLowerHex(u[i])
    ensures forall i :: 0 <= i < 8 ==> HexValue(u[i]) == draws[i]
  {
    assert forall i :: 0 <= i < |Template| ==> Template[i] == 'x';
    Fill(Template, draws)
  }
}
