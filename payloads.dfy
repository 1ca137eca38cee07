/**
 * Journal payloads and their JSON text. In the journal every payload is an
 * object serialised with its type name ("$type") by the JSON library; here a
 * payload is a tagged value, a type id and a list of integer fields, written
 * as `{"$type":<id>,"f":[<field>,...]}`. What matters to the journal is that
 * this text is self-delimiting, holds no line break and reads back as the
 * payload that produced it; the lemmas below prove those three facts.
 */
module Payloads {
  import opened Common
  import opened Decimal

  datatype Payload = Payload(typeId: nat, fields: seq<int>)

  /** A string without '\r' or '\n', so it stays inside one line. */
  predicate NoLineBreak(s: seq<char>) {
    forall i :: 0 <= i < |s| ==> s[i] != '\r' && s[i] != '\n'
  }

  // ---------------------------------------------------------------------------
  // Writing
  // ---------------------------------------------------------------------------

  function IntText(i: int): string {
    if i < 0 then "-" + Digits(-i) else Digits(i)
  }

  /** The items of a non-empty JSON array of integers, then the closing ']'. */
  function IntItemsText(xs: seq<int>): string
    requires xs != []
  {
    IntText(xs[0]) + if |xs| == 1 then "]" else "," + IntItemsText(xs[1..])
  }

  /** A JSON array of integers after its opening '['. */
  function IntsText(xs: seq<int>): string {
    if xs == [] then "]" else IntItemsText(xs)
  }

  function PayloadText(p: Payload): string {
    PayloadOpen + Digits(p.typeId) + FieldsKey + IntsText(p.fields) + "}"
  }

  function PayloadItemsText(ps: seq<Payload>): string
    requires ps != []
  {
    PayloadText(ps[0]) + if |ps| == 1 then "]" else "," + PayloadItemsText(ps[1..])
  }

  /** A JSON array of payloads after its opening '['. */
  function PayloadsText(ps: seq<Payload>): string {
    if ps == [] then "]" else PayloadItemsText(ps)
  }

  // ---------------------------------------------------------------------------
  // Reading: each parser returns the value read and the text after it
  // ---------------------------------------------------------------------------

  /** The length of the longest prefix of `s` made of digits. */
  function DigitRun(s: seq<char>): (k: nat)
    ensures k <= |s| && AllDigits(s[..k])
    ensures k < |s| ==> !IsDigit(s[k])
  {
    if |s| > 0 && IsDigit(s[0]) then
      var k := 1 + DigitRun(s[1..]);
      assert s[..k] == [s[0]] + s[1..][..k - 1];
      k
    else 0
  }

  function ParseLiteral(literal: string, s: string): (r: Option<string>)
    ensures r.Some? ==> |r.value| <= |s| - |literal|
  {
    if |literal| <= |s| && s[..|literal|] == literal then Some(s[|literal|..]) else None
  }

  function ParseNat(s: string): (r: Option<(nat, string)>)
    ensures r.Some? ==> |r.value.1| < |s|
  {
    var k := DigitRun(s);
    if k == 0 then None else Some((Value(s[..k]), s[k..]))
  }

  function ParseInt(s: string): (r: Option<(int, string)>)
    ensures r.Some? ==> |r.value.1| < |s|
  {
    if |s| > 0 && s[0] == '-' then
      match ParseNat(s[1..])
      case None => None
      case Some((n, rest)) => var v: int := n; Some((-v, rest))
    else ParseNat(s)
  }

  /** Items of a non-empty integer array, up to and including its ']'. */
  function ParseIntItems(s: string): (r: Option<(seq<int>, string)>)
    ensures r.Some? ==> |r.value.1| < |s|
    decreases |s|
  {
    var head := ParseInt(s);
    if head.None? then None
    else
      var (x, rest) := head.value;
      if |rest| > 0 && rest[0] == ']' then Some(([x], rest[1..]))
      else if |rest| > 0 && rest[0] == ',' then
        var tail := ParseIntItems(rest[1..]);
        if tail.None? then None else Some(([x] + tail.value.0, tail.value.1))
      else None
  }

  /** An integer array after its '[', up to and including its ']'. */
  function ParseInts(s: string): (r: Option<(seq<int>, string)>)
    ensures r.Some? ==> |r.value.1| < |s|
  {
    if |s| > 0 && s[0] == ']' then Some(([], s[1..])) else ParseIntItems(s)
  }

  const PayloadOpen: string := "{\"$type\":"
  const FieldsKey: string := ",\"f\":["

  function ParsePayload(s: string): (r: Option<(Payload, string)>)
    ensures r.Some? ==> |r.value.1| < |s|
  {
    var s1 := ParseLiteral(PayloadOpen, s);
    if s1.None? then None else
    var typeId := ParseNat(s1.value);
    if typeId.None? then None else
    var s3 := ParseLiteral(FieldsKey, typeId.value.1);
    if s3.None? then None else
    var fields := ParseInts(s3.value);
    if fields.None? then None else
    var s5 := ParseLiteral("}", fields.value.1);
    if s5.None? then None else Some((Payload(typeId.value.0, fields.value.0), s5.value))
  }

  function ParsePayloadItems(s: string): (r: Option<(seq<Payload>, string)>)
    ensures r.Some? ==> |r.value.1| < |s|
    decreases |s|
  {
    var head := ParsePayload(s);
    if head.None? then None
    else
      var (p, rest) := head.value;
      if |rest| > 0 && rest[0] == ']' then Some(([p], rest[1..]))
      else if |rest| > 0 && rest[0] == ',' then
        var tail := ParsePayloadItems(rest[1..]);
        if tail.None? then None else Some(([p] + tail.value.0, tail.value.1))
      else None
  }

  /** A payload array after its '[', up to and including its ']'. */
  function ParsePayloads(s: string): (r: Option<(seq<Payload>, string)>)
    ensures r.Some? ==> |r.value.1| < |s|
  {
    if |s| > 0 && s[0] == ']' then Some(([], s[1..])) else ParsePayloadItems(s)
  }

  // ---------------------------------------------------------------------------
  // Round trips
  // ---------------------------------------------------------------------------

  lemma ParseLiteralOf(literal: string, rest: string)
    ensures ParseLiteral(literal, literal + rest) == Some(rest)
  {
    assert (literal + rest)[..|literal|] == literal;
    assert (literal + rest)[|literal|..] == rest;
  }

  lemma {:induction false} DigitRunOfDigits(d: seq<char>, rest: seq<char>)
    requires AllDigits(d)
    requires rest == [] || !IsDigit(rest[0])
    ensures DigitRun(d + rest) == |d|
  {
    if |d| > 0 {
      assert (d + rest)[1..] == d[1..] + rest;
      DigitRunOfDigits(d[1..], rest);
    } else {
      assert d + rest == rest;
    }
  }

  /** A number printed by `ToString()` reads back, and reading stops at the next non-digit. */
  lemma ParseNatOfDigits(n: nat, rest: string)
    requires rest == [] || !IsDigit(rest[0])
    ensures ParseNat(Digits(n) + rest) == Some((n, rest))
  {
    var s := Digits(n) + rest;
    DigitRunOfDigits(Digits(n), rest);
    assert s[..|Digits(n)|] == Digits(n);
    assert s[|Digits(n)|..] == rest;
    ValueOfDigits(n);
  }

  lemma ParseIntOfText(i: int, rest: string)
    requires rest == [] || !IsDigit(rest[0])
    ensures ParseInt(IntText(i) + rest) == Some((i, rest))
  {
    var s := IntText(i) + rest;
    if i < 0 {
      assert s == "-" + (Digits(-i) + rest);
      assert s[0] == '-';
      assert s[1..] == Digits(-i) + rest;
      ParseNatOfDigits(-i, rest);
    } else {
      assert IsDigit(Digits(i)[0]);
      assert s[0] == Digits(i)[0];
      ParseNatOfDigits(i, rest);
    }
  }

  /** The last item of an integer array reads back. */
  lemma ParseIntItemsOne(xs: seq<int>, rest: string)
    requires |xs| == 1
    ensures ParseIntItems(IntItemsText(xs) + rest) == Some((xs, rest))
  {
    var after := "]" + rest;
    assert IntItemsText(xs) + rest == IntText(xs[0]) + after;
    ParseIntOfText(xs[0], after);
    assert after[1..] == rest;
    assert [xs[0]] == xs;
  }

  /** An item of an integer array followed by further items that read back. */
  lemma ParseIntItemsCons(xs: seq<int>, rest: string)
    requires |xs| > 1 && ParseIntItems(IntItemsText(xs[1..]) + rest) == Some((xs[1..], rest))
    ensures ParseIntItems(IntItemsText(xs) + rest) == Some((xs, rest))
  {
    var t := IntItemsText(xs[1..]) + rest;
    IntItemsTextCons(xs, rest);
    ParseIntOfText(xs[0], "," + t);
    ParseIntItemsStep(IntItemsText(xs) + rest, xs, t, rest);
  }

  lemma IntItemsTextCons(xs: seq<int>, rest: string)
    requires |xs| > 1
    ensures IntItemsText(xs) + rest == IntText(xs[0]) + ("," + (IntItemsText(xs[1..]) + rest))
  {
    Assoc(IntText(xs[0]), "," + IntItemsText(xs[1..]), rest);
    Assoc(",", IntItemsText(xs[1..]), rest);
  }

  /** One step of `ParseIntItems`, on texts left abstract. */
  lemma ParseIntItemsStep(s: string, xs: seq<int>, t: string, rest: string)
    requires |xs| > 1
    requires ParseInt(s) == Some((xs[0], "," + t))
    requires ParseIntItems(t) == Some((xs[1..], rest))
    ensures ParseIntItems(s) == Some((xs, rest))
  {
    DropCons(',', t);
    HeadTail(xs);
  }

  lemma {:induction false} ParseIntItemsOfText(xs: seq<int>, rest: string)
    requires xs != []
    ensures ParseIntItems(IntItemsText(xs) + rest) == Some((xs, rest))
  {
    if |xs| == 1 {
      ParseIntItemsOne(xs, rest);
    } else {
      ParseIntItemsOfText(xs[1..], rest);
      ParseIntItemsCons(xs, rest);
    }
  }

  lemma ParseIntsOfText(xs: seq<int>, rest: string)
    ensures ParseInts(IntsText(xs) + rest) == Some((xs, rest))
  {
    if xs == [] {
      assert ("]" + rest)[1..] == rest;
    } else {
      ParseIntItemsOfText(xs, rest);
      assert IntText(xs[0])[0] != ']';
    }
  }

  /** `ParsePayload` on the text of a payload, with the two fields' texts left abstract. */
  lemma ParsePayloadOfParts(typeIdText: string, typeId: nat, fieldsText: string, fields: seq<int>, rest: string)
    requires ParseNat(typeIdText + (FieldsKey + (fieldsText + ("}" + rest))))
             == Some((typeId, FieldsKey + (fieldsText + ("}" + rest))))
    requires ParseInts(fieldsText + ("}" + rest)) == Some((fields, "}" + rest))
    ensures ParsePayload(PayloadOpen + typeIdText + FieldsKey + fieldsText + "}" + rest)
            == Some((Payload(typeId, fields), rest))
  {
    var s3 := fieldsText + ("}" + rest);
    var s2 := FieldsKey + s3;
    var s1 := typeIdText + s2;
    assert PayloadOpen + typeIdText + FieldsKey + fieldsText + "}" + rest == PayloadOpen + s1;
    ParseLiteralOf(PayloadOpen, s1);
    ParseLiteralOf(FieldsKey, s3);
    ParseLiteralOf("}", rest);
  }

  /** A payload's text is self-delimiting: it reads back whatever follows it. */
  lemma ParsePayloadOfText(p: Payload, rest: string)
    ensures ParsePayload(PayloadText(p) + rest) == Some((p, rest))
  {
    var tail := FieldsKey + (IntsText(p.fields) + ("}" + rest));
    assert FieldsKey[0] == ',';
    ParseNatOfDigits(p.typeId, tail);
    ParseIntsOfText(p.fields, "}" + rest);
    ParsePayloadOfParts(Digits(p.typeId), p.typeId, IntsText(p.fields), p.fields, rest);
  }

  /** The last item of a payload array reads back. */
  lemma ParsePayloadItemsOne(ps: seq<Payload>, rest: string)
    requires |ps| == 1
    ensures ParsePayloadItems(PayloadItemsText(ps) + rest) == Some((ps, rest))
  {
    var after := "]" + rest;
    assert PayloadItemsText(ps) + rest == PayloadText(ps[0]) + after;
    ParsePayloadOfText(ps[0], after);
    assert after[1..] == rest;
    assert [ps[0]] == ps;
  }

  /** An item of a payload array followed by further items that read back. */
  lemma ParsePayloadItemsCons(ps: seq<Payload>, rest: string)
    requires |ps| > 1 && ParsePayloadItems(PayloadItemsText(ps[1..]) + rest) == Some((ps[1..], rest))
    ensures ParsePayloadItems(PayloadItemsText(ps) + rest) == Some((ps, rest))
  {
    var t := PayloadItemsText(ps[1..]) + rest;
    PayloadItemsTextCons(ps, rest);
    ParsePayloadOfText(ps[0], "," + t);
    ParsePayloadItemsStep(PayloadItemsText(ps) + rest, ps, t, rest);
  }

  lemma PayloadItemsTextCons(ps: seq<Payload>, rest: string)
    requires |ps| > 1
    ensures PayloadItemsText(ps) + rest == PayloadText(ps[0]) + ("," + (PayloadItemsText(ps[1..]) + rest))
  {
    Assoc(PayloadText(ps[0]), "," + PayloadItemsText(ps[1..]), rest);
    Assoc(",", PayloadItemsText(ps[1..]), rest);
  }

  /** One step of `ParsePayloadItems`, on texts left abstract. */
  lemma ParsePayloadItemsStep(s: string, ps: seq<Payload>, t: string, rest: string)
    requires |ps| > 1
    requires ParsePayload(s) == Some((ps[0], "," + t))
    requires ParsePayloadItems(t) == Some((ps[1..], rest))
    ensures ParsePayloadItems(s) == Some((ps, rest))
  {
    DropCons(',', t);
    HeadTail(ps);
  }

  lemma {:induction false} ParsePayloadItemsOfText(ps: seq<Payload>, rest: string)
    requires ps != []
    ensures ParsePayloadItems(PayloadItemsText(ps) + rest) == Some((ps, rest))
  {
    if |ps| == 1 {
      ParsePayloadItemsOne(ps, rest);
    } else {
      ParsePayloadItemsOfText(ps[1..], rest);
      ParsePayloadItemsCons(ps, rest);
    }
  }

  /** The payload array of a record reads back as the list that was written, in order. */
  lemma ParsePayloadsOfText(ps: seq<Payload>, rest: string)
    ensures ParsePayloads(PayloadsText(ps) + rest) == Some((ps, rest))
  {
    if ps == [] {
      assert ("]" + rest)[1..] == rest;
    } else {
      ParsePayloadItemsOfText(ps, rest);
      assert PayloadText(ps[0])[0] == '{';
    }
  }

  // ---------------------------------------------------------------------------
  // No line breaks
  // ---------------------------------------------------------------------------

  lemma NoLineBreakConcat(a: seq<char>, b: seq<char>)
    requires NoLineBreak(a) && NoLineBreak(b)
    ensures NoLineBreak(a + b)
  {
    forall i | 0 <= i < |a + b| ensures (a + b)[i] != '\r' && (a + b)[i] != '\n' {
      if i < |a| { assert (a + b)[i] == a[i]; } else { assert (a + b)[i] == b[i - |a|]; }
    }
  }

  lemma DigitsNoLineBreak(n: nat)
    ensures NoLineBreak(Digits(n))
  {
    var d := Digits(n);
    forall i | 0 <= i < |d| ensures d[i] != '\r' && d[i] != '\n' {
      assert IsDigit(d[i]);
    }
  }

  lemma IntTextNoLineBreak(i: int)
    ensures NoLineBreak(IntText(i))
  {
    if i < 0 {
      DigitsNoLineBreak(-i);
      NoLineBreakConcat("-", Digits(-i));
    } else {
      DigitsNoLineBreak(i);
    }
  }

  lemma {:induction false} IntItemsNoLineBreak(xs: seq<int>)
    requires xs != []
    ensures NoLineBreak(IntItemsText(xs))
  {
    IntTextNoLineBreak(xs[0]);
    if |xs| == 1 {
      NoLineBreakConcat(IntText(xs[0]), "]");
    } else {
      IntItemsNoLineBreak(xs[1..]);
      NoLineBreakConcat(",", IntItemsText(xs[1..]));
      NoLineBreakConcat(IntText(xs[0]), "," + IntItemsText(xs[1..]));
    }
  }

  lemma PayloadNoLineBreak(p: Payload)
    ensures NoLineBreak(PayloadText(p))
  {
    DigitsNoLineBreak(p.typeId);
    if p.fields != [] {
      IntItemsNoLineBreak(p.fields);
    }
    var a := PayloadOpen + Digits(p.typeId);
    NoLineBreakConcat(PayloadOpen, Digits(p.typeId));
    NoLineBreakConcat(a, FieldsKey);
    NoLineBreakConcat(a + FieldsKey, IntsText(p.fields));
    NoLineBreakConcat(a + FieldsKey + IntsText(p.fields), "}");
  }

  lemma {:induction false} PayloadItemsNoLineBreak(ps: seq<Payload>)
    requires ps != []
    ensures NoLineBreak(PayloadItemsText(ps))
  {
    PayloadNoLineBreak(ps[0]);
    if |ps| == 1 {
      NoLineBreakConcat(PayloadText(ps[0]), "]");
    } else {
      PayloadItemsNoLineBreak(ps[1..]);
      NoLineBreakConcat(",", PayloadItemsText(ps[1..]));
      NoLineBreakConcat(PayloadText(ps[0]), "," + PayloadItemsText(ps[1..]));
    }
  }

  /** A payload array never contains a line break, so a record stays on one line. */
  lemma PayloadsNoLineBreak(ps: seq<Payload>)
    ensures NoLineBreak(PayloadsText(ps))
  {
    if ps != [] {
      PayloadItemsNoLineBreak(ps);
    }
  }
}
