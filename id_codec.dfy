/** The id-list codec of Extensions.cs: a list of 32-bit tile or wall ids
    is stored in the `ID` column as decimal numbers joined by commas.

    `IDToDBString` and `ToIDList` are the source's two loops; `Encode` and
    `Decode` are the specifications they are proved against.  The round trip
    holds for every non-empty list; the empty list encodes to "" and ""
    does not decode, because the one empty field it splits into is not a
    number. */
module IdCodec {
  import opened Wrappers

  const MinInt32: int := -0x8000_0000
  const MaxInt32: int := 0x7FFF_FFFF

  predicate IsInt32(n: int) {
    MinInt32 <= n <= MaxInt32
  }

  predicate IsDigit(c: char) {
    '0' <= c <= '9'
  }

  predicate AllDigits(s: string) {
    forall i :: 0 <= i < |s| ==> IsDigit(s[i])
  }

  function DigitChar(d: int): (c: char)
    requires 0 <= d < 10
    ensures IsDigit(c)
  {
    (48 + d) as char
  }

  function DigitValue(c: char): (d: int)
    requires IsDigit(c)
    ensures 0 <= d < 10
  {
    c as int - 48
  }

  /** The decimal digits of `n`, most significant first, without leading zeros. */
  function NatText(n: nat): string
  {
    if n < 10 then [DigitChar(n)] else NatText(n / 10) + [DigitChar(n % 10)]
  }

  /** `int.ToString()`: a minus sign for a negative number, then the digits
      of its magnitude. */
  function IdText(n: int): string
  {
    if n < 0 then "-" + NatText(-n) else NatText(n)
  }

  /** The value of a string of digits, read left to right. */
  function DigitsValue(s: string): nat
    requires AllDigits(s)
  {
    if |s| == 0 then 0 else DigitsValue(s[..|s| - 1]) * 10 + DigitValue(s[|s| - 1])
  }

  /** `Convert.ToInt32` / `int.TryParse` on one field, restricted to an
      optional minus sign followed by at least one digit; a value outside the
      32-bit range is an overflow and fails like a malformed field. */
  function ParseInt32(s: string): (r: Option<int>)
    ensures r.Some? ==> IsInt32(r.value)
    ensures r.Some? ==> |s| > 0 && (IsDigit(s[0]) || s[0] == '-') && ',' !in s
  {
    var negative := |s| > 0 && s[0] == '-';
    var digits := if negative then s[1..] else s;
    if |digits| == 0 || !AllDigits(digits) then None
    else
      var magnitude: int := DigitsValue(digits);
      var v := if negative then -magnitude else magnitude;
      if IsInt32(v) then Some(v) else None
  }

  /** `str.Split(',')`: the fields between commas, in order.  There is one
      more field than there are commas, so "" gives the single field "". */
  function Split(s: string): (fields: seq<string>)
    ensures |fields| == multiset(s)[','] + 1
    ensures forall i :: 0 <= i < |fields| ==> ',' !in fields[i]
  {
    if |s| == 0 then [""]
    else
      var rest := Split(s[1..]);
      assert s == [s[0]] + s[1..];
      if s[0] == ',' then [""] + rest
      else [[s[0]] + rest[0]] + rest[1..]
  }

  /** `String.Join(",", parts)`. */
  function Join(parts: seq<string>): string
  {
    if |parts| == 0 then ""
    else if |parts| == 1 then parts[0]
    else parts[0] + "," + Join(parts[1..])
  }

  /** The decimal text of every id, in list order. */
  function Texts(ids: seq<int>): (texts: seq<string>)
  {
    seq(|ids|, i requires 0 <= i < |ids| => IdText(ids[i]))
  }

  /** What `IDToDBString` returns. */
  function Encode(ids: seq<int>): string
  {
    Join(Texts(ids))
  }

  /** What `ToIDList` returns, or None where it throws: every field of the
      split must parse. */
  function Decode(s: string): (r: Option<seq<int>>)
    ensures r.Some? ==> |r.value| == multiset(s)[','] + 1
    ensures r.Some? ==> forall i :: 0 <= i < |r.value| ==> IsInt32(r.value[i])
  {
    var fields := Split(s);
    if forall i :: 0 <= i < |fields| ==> ParseInt32(fields[i]).Some? then
      Some(seq(|fields|, i requires 0 <= i < |fields| && ParseInt32(fields[i]).Some? => ParseInt32(fields[i]).value))
    else None
  }

  /** `IDToDBString`: append each id's text to a list, then join with commas. */
  method IDToDBString(ids: seq<int>) returns (s: string)
    ensures s == Encode(ids)
  {
    var strList: seq<string> := [];
    for i := 0 to |ids|
      invariant strList == Texts(ids[..i])
    {
      strList := strList + [IdText(ids[i])];
    }
    assert ids[..|ids|] == ids;
    s := Join(strList);
  }

  /** `ToIDList`: convert each comma-separated field in turn; the first
      field that does not convert ends the loop with a failure. */
  method ToIDList(str: string) returns (r: Option<seq<int>>)
    ensures r == Decode(str)
  {
    var fields := Split(str);
    var ids: seq<int> := [];
    for i := 0 to |fields|
      invariant |ids| == i
      invariant forall k :: 0 <= k < i ==> ParseInt32(fields[k]) == Some(ids[k])
    {
      var parsed := ParseInt32(fields[i]);
      if parsed.None? {
        assert !(forall k :: 0 <= k < |fields| ==> ParseInt32(fields[k]).Some?);
        return None;
      }
      ids := ids + [parsed.value];
    }
    assert forall k :: 0 <= k < |fields| ==> ParseInt32(fields[k]).Some?;
    r := Some(ids);
    assert Decode(str).value == ids;
  }

  // ---------------------------------------------------------------------
  // Decimal text and its parse

  lemma {:induction false} NatTextDigits(n: nat)
    ensures |NatText(n)| > 0 && AllDigits(NatText(n)) && DigitsValue(NatText(n)) == n
  {
    if n >= 10 {
      NatTextDigits(n / 10);
      var t := NatText(n);
      assert t[..|t| - 1] == NatText(n / 10);
    }
  }

  /** Every 32-bit id parses back from its own decimal text. */
  lemma ParseIdText(n: int)
    requires IsInt32(n)
    ensures ParseInt32(IdText(n)) == Some(n)
  {
    NatTextDigits(if n < 0 then -n else n);
    if n < 0 {
      assert IdText(n)[1..] == NatText(-n);
    }
  }

  /** The text of an id never contains the separator. */
  lemma IdTextHasNoComma(n: int)
    ensures ',' !in IdText(n)
  {
    NatTextDigits(if n < 0 then -n else n);
  }

  /** A field that is empty, or holds anything but digits after an optional
      leading minus sign, does not parse. */
  lemma ParseRejectsNonNumeric(s: string)
    requires |s| == 0 || s == "-" || exists i :: 0 <= i < |s| && !IsDigit(s[i]) && !(i == 0 && s[i] == '-')
    ensures ParseInt32(s) == None
  {
  }

  // ---------------------------------------------------------------------
  // Split and Join are inverse on non-empty lists of comma-free fields

  lemma {:induction false} SplitCommaFree(p: string, t: string)
    requires ',' !in p
    ensures Split(p) == [p]
    ensures Split(p + "," + t) == [p] + Split(t)
  {
    if |p| == 0 {
      assert ("" + "," + t)[1..] == t;
    } else {
      SplitCommaFree(p[1..], t);
      assert (p + "," + t)[1..] == p[1..] + "," + t;
      assert [p[0]] + p[1..] == p;
    }
  }

  /** Splitting a comma-joined list of comma-free fields gives back the list. */
  lemma {:induction false} SplitJoin(parts: seq<string>)
    requires |parts| > 0
    requires forall i :: 0 <= i < |parts| ==> ',' !in parts[i]
    ensures Split(Join(parts)) == parts
  {
    if |parts| == 1 {
      SplitCommaFree(parts[0], "");
    } else {
      SplitJoin(parts[1..]);
      SplitCommaFree(parts[0], Join(parts[1..]));
    }
  }

  /** Joining the fields of a split gives back the string. */
  lemma {:induction false} JoinSplit(s: string)
    ensures Join(Split(s)) == s
  {
    if |s| > 0 {
      JoinSplit(s[1..]);
      var rest := Split(s[1..]);
      if s[0] != ',' && |rest| > 1 {
        assert Join(rest) == rest[0] + "," + Join(rest[1..]);
      }
    }
  }

  // ---------------------------------------------------------------------
  // The codec round trip

  /** `ToIDList(IDToDBString(ids)) == ids` for every non-empty list of 32-bit
      ids, order and duplicates included. */
  lemma RoundTrip(ids: seq<int>)
    requires |ids| > 0
    requires forall i :: 0 <= i < |ids| ==> IsInt32(ids[i])
    ensures Decode(Encode(ids)) == Some(ids)
  {
    var texts := Texts(ids);
    forall i | 0 <= i < |texts|
      ensures ',' !in texts[i] && ParseInt32(texts[i]) == Some(ids[i])
    {
      IdTextHasNoComma(ids[i]);
      ParseIdText(ids[i]);
    }
    SplitJoin(texts);
    var fields := Split(Encode(ids));
    assert fields == texts;
    assert forall i :: 0 <= i < |fields| ==> ParseInt32(fields[i]).Some?;
    assert Decode(Encode(ids)).value == ids;
  }

  /** The sharp edge: an emptied list is stored as "", and "" does not decode. */
  lemma EmptyListDoesNotRoundTrip()
    ensures Encode([]) == ""
    ensures Decode(Encode([])) == None
  {
    assert Encode([]) == "";
    assert Split("") == [""];
    assert ParseInt32(Split("")[0]) == None;
  }

  /** Encoding writes exactly one comma between consecutive ids. */
  lemma EncodeCommas(ids: seq<int>)
    requires |ids| > 0
    ensures multiset(Encode(ids))[','] == |ids| - 1
  {
    var texts := Texts(ids);
    forall i | 0 <= i < |texts| ensures ',' !in texts[i] {
      IdTextHasNoComma(ids[i]);
    }
    SplitJoin(texts);
  }
}
