/** The values of the `token` column (a PostgreSQL `UUID`) and the texts that spell them.

    A UUID is 32 hexadecimal digits. The store answers one as 8-4-4-4-12 lower-case
    digits. It reads text the way PostgreSQL's `uuid_in` does: an optional `{` `}` pair
    around 32 hex digits of either case, with an optional hyphen after any group of four
    digits but the last. Any other text is a data error. A header compared with the
    column goes through that reading, so it is matched by the UUID it spells, not by its
    text.
 */
module Uuids {
  import opened Errors

  type Nibble = n: int | 0 <= n < 16

  /** The 32 hex digits of a UUID, most significant first. */
  type Uuid = s: seq<Nibble> | |s| == 32 witness seq(32, _ => 0)

  predicate IsHex(c: char) {
    ('0' <= c <= '9') || ('a' <= c <= 'f') || ('A' <= c <= 'F')
  }

  function HexValue(c: char): Nibble
    requires IsHex(c)
  {
    if '0' <= c <= '9' then c as int - '0' as int
    else if 'a' <= c <= 'f' then c as int - 'a' as int + 10
    else c as int - 'A' as int + 10
  }

  /** The digit for `n`, in upper or lower case. */
  function HexDigit(n: Nibble, upper: bool): (c: char)
    ensures IsHex(c) && HexValue(c) == n
  {
    if n < 10 then ('0' as int + n) as char
    else if upper then ('A' as int + n - 10) as char
    else ('a' as int + n - 10) as char
  }

  /** Reads bytes `i` to 15 from the front of `s`: two hex digits per byte, each byte with
      an odd index other than 15 optionally followed by one hyphen. Answers the digits and
      the unread rest. */
  function ParseBytes(s: string, i: nat): (r: Option<(seq<Nibble>, string)>)
    requires i <= 16
    ensures r.Some? ==> |r.value.0| == 2 * (16 - i) && |r.value.1| + 2 * (16 - i) <= |s|
    decreases 16 - i
  {
    if i == 16 then Some(([], s))
    else if |s| < 2 || !IsHex(s[0]) || !IsHex(s[1]) then None
    else
      match ParseBytes(AfterByte(s, i), i + 1)
      case None => None
      case Some((ds, tail)) => Some(([HexValue(s[0]), HexValue(s[1])] + ds, tail))
  }

  /** What follows the two digits of byte `i` at the front of `s`, and the hyphen after
      them when byte `i` may carry one. */
  function AfterByte(s: string, i: nat): (rest: string)
    requires |s| >= 2
    ensures |rest| + 2 <= |s|
  {
    if |s| > 2 && s[2] == '-' && i % 2 == 1 && i < 15 then s[3..] else s[2..]
  }

  /** `uuid_in`: the UUID `s` spells, or none when `s` spells no UUID. */
  function Parse(s: string): (r: Option<Uuid>)
    ensures r.Some? ==> |s| >= 32
    ensures |s| > 0 && !IsHex(s[0]) && s[0] != '{' ==> r.None?
  {
    var braced := |s| > 0 && s[0] == '{';
    var body := if braced then s[1..] else s;
    var p := ParseBytes(body, 0);
    if p.Some? && p.value.1 == (if braced then "}" else "") then
      Some(p.value.0)
    else None
  }

  /** Bytes `i` to 15 of `u` as text: two digits per byte, digit `k` in upper case when
      `k` is in `upper` and in lower case otherwise, with a hyphen after each byte whose
      index is in `dashes`. */
  function Spell(u: Uuid, i: nat, upper: set<nat>, dashes: set<nat>): string
    requires i <= 16
    decreases 16 - i
  {
    if i == 16 then ""
    else
      [HexDigit(u[2 * i], 2 * i in upper), HexDigit(u[2 * i + 1], 2 * i + 1 in upper)]
      + (if i in dashes then "-" else "")
      + Spell(u, i + 1, upper, dashes)
  }

  /** The hyphen positions `uuid_in` allows: after a byte with an odd index other than 15. */
  predicate DashesOk(dashes: set<nat>) {
    forall d :: d in dashes ==> d % 2 == 1 && d < 15
  }

  /** Reading back a spelling of bytes `i` to 15 yields those digits and leaves what
      followed the spelling unread. */
  lemma {:induction false} SpellParses(u: Uuid, i: nat, upper: set<nat>, dashes: set<nat>, tail: string)
    requires i <= 16 && DashesOk(dashes)
    ensures ParseBytes(Spell(u, i, upper, dashes) + tail, i) == Some((u[2 * i..], tail))
    decreases 16 - i
  {
    if i < 16 {
      SpellParses(u, i + 1, upper, dashes, tail);
      SpellParsesStep(u, i, upper, dashes, tail);
    } else {
      assert Spell(u, i, upper, dashes) + tail == tail;
      assert u[2 * i..] == [];
    }
  }

  /** Reading byte `i` of a spelling, given that the bytes after it read back. */
  lemma SpellParsesStep(u: Uuid, i: nat, upper: set<nat>, dashes: set<nat>, tail: string)
    requires i < 16 && DashesOk(dashes)
    requires ParseBytes(Spell(u, i + 1, upper, dashes) + tail, i + 1) == Some((u[2 * (i + 1)..], tail))
    ensures ParseBytes(Spell(u, i, upper, dashes) + tail, i) == Some((u[2 * i..], tail))
  {
    var rest := Spell(u, i + 1, upper, dashes) + tail;
    var s := Spell(u, i, upper, dashes) + tail;
    SpellStep(u, i, upper, dashes, tail);
    if i in dashes {
      ReadByte(s, i, u, upper, true, rest, tail);
    } else {
      if i % 2 == 1 && i < 15 {
        SpellHead(u, i + 1, upper, dashes);
        assert rest[0] == HexDigit(u[2 * (i + 1)], 2 * (i + 1) in upper);
      }
      ReadByte(s, i, u, upper, false, rest, tail);
    }
  }

  /** A sequence from `k` on is its elements at `k` and `k` + 1, then the rest. */
  lemma TwoOff(u: seq<Nibble>, k: nat)
    requires k + 2 <= |u|
    ensures u[k..] == [u[k], u[k + 1]] + u[k + 2..]
  {
  }

  /** Spelling bytes `i` to 15 in front of `tail` is spelling byte `i`, its hyphen if any,
      then bytes `i` + 1 to 15 in front of `tail`. */
  lemma SpellStep(u: Uuid, i: nat, upper: set<nat>, dashes: set<nat>, tail: string)
    requires i < 16
    ensures Spell(u, i, upper, dashes) + tail
         == [HexDigit(u[2 * i], 2 * i in upper), HexDigit(u[2 * i + 1], 2 * i + 1 in upper)]
            + (if i in dashes then "-" else "") + (Spell(u, i + 1, upper, dashes) + tail)
  {
  }

  /** `ParseBytes` reads one spelled byte, with its hyphen when one is there, and goes on. */
  lemma ReadByte(s: string, i: nat, u: Uuid, upper: set<nat>, dash: bool, rest: string, tail: string)
    requires i < 16
    requires s == [HexDigit(u[2 * i], 2 * i in upper), HexDigit(u[2 * i + 1], 2 * i + 1 in upper)]
                  + (if dash then "-" else "") + rest
    requires dash ==> i % 2 == 1 && i < 15
    requires !dash && i % 2 == 1 && i < 15 ==> |rest| > 0 && IsHex(rest[0])
    requires ParseBytes(rest, i + 1) == Some((u[2 * (i + 1)..], tail))
    ensures ParseBytes(s, i) == Some((u[2 * i..], tail))
  {
    if dash {
      assert s[2] == '-' && s[3..] == rest;
    } else {
      assert s[2..] == rest;
      if |s| > 2 {
        assert s[2] == rest[0];
      }
    }
    assert AfterByte(s, i) == rest;
    TwoOff(u, 2 * i);
  }

  /** A spelling of bytes `i` to 15, `i` < 16, starts with the first digit of byte `i`. */
  lemma SpellHead(u: Uuid, i: nat, upper: set<nat>, dashes: set<nat>)
    requires i < 16
    ensures |Spell(u, i, upper, dashes)| >= 2
    ensures Spell(u, i, upper, dashes)[0] == HexDigit(u[2 * i], 2 * i in upper)
  {
  }

  /** Every text `uuid_in` accepts for `u` reads back as `u`: each digit in either case,
      any allowed hyphens, with or without braces. */
  lemma SpellingsParse(u: Uuid, upper: set<nat>, dashes: set<nat>, braced: bool)
    requires DashesOk(dashes)
    ensures var s := Spell(u, 0, upper, dashes);
      Parse(if braced then "{" + s + "}" else s) == Some(u)
  {
    var s := Spell(u, 0, upper, dashes);
    SpellHead(u, 0, upper, dashes);
    if braced {
      SpellParses(u, 0, upper, dashes, "}");
      ParseWhole(s, u, true);
    } else {
      SpellParses(u, 0, upper, dashes, "");
      ParseWhole(s, u, false);
    }
  }

  /** A text whose digits read as `u` to its very end, optionally braced, is read as `u`. */
  lemma ParseWhole(s: string, u: Uuid, braced: bool)
    requires |s| > 0 && s[0] != '{'
    requires ParseBytes(s + (if braced then "}" else ""), 0) == Some((u[0..], if braced then "}" else ""))
    ensures Parse(if braced then "{" + s + "}" else s) == Some(u)
  {
    assert u[0..] == u;
    if braced {
      Unbrace(s);
    } else {
      assert s + "" == s;
    }
  }

  /** Dropping the opening brace of a braced text leaves the rest with its closing brace. */
  lemma Unbrace(s: string)
    ensures ("{" + s + "}")[0] == '{'
    ensures ("{" + s + "}")[1..] == s + "}"
  {
  }

  const CanonicalDashes: set<nat> := {3, 5, 7, 9}

  lemma CanonicalDashesOk()
    ensures DashesOk(CanonicalDashes)
  {
  }

  /** `str(uuid)`: 8-4-4-4-12 lower-case digits. It reads back as the same UUID. */
  function Text(u: Uuid): (s: string)
    ensures Parse(s) == Some(u)
  {
    var s := Spell(u, 0, {}, CanonicalDashes);
    CanonicalDashesOk();
    SpellingsParse(u, {}, CanonicalDashes, false);
    assert (if false then "{" + s + "}" else s) == s;
    s
  }
}
