/**
 * Taking one field out of a modem response: extractValueFromCommandResponse of
 * src/sequans_controller.cpp, which walks and cuts a local copy of the response.
 */
module ResponseFields {
  import opened Bytes
  import opened CStrings

  const COMMA: byte := 44
  const SPACE: byte := 32

  // ----- the fields of a text -----

  /** The pieces between the commas; always at least one. */
  ghost function Split(t: seq<byte>): (fields: seq<seq<byte>>)
    ensures fields != [] && forall i :: 0 <= i < |fields| ==> COMMA !in fields[i]
    decreases |t|
  {
    var k := FirstIndex(t, COMMA);
    if k == |t| then
      assert t[..k] == t;
      [t]
    else [t[..k]] + Split(t[k + 1..])
  }

  ghost function Join(fields: seq<seq<byte>>): seq<byte>
    requires fields != []
  {
    if |fields| == 1 then fields[0] else fields[0] + [COMMA] + Join(fields[1..])
  }

  lemma {:induction false} SplitOfJoin(fields: seq<seq<byte>>)
    requires fields != [] && forall i :: 0 <= i < |fields| ==> COMMA !in fields[i]
    ensures Split(Join(fields)) == fields
  {
    hide FirstIndex;
    var t := Join(fields);
    var k := |fields[0]|;
    assert t[..k] == fields[0];
    FirstIndexIs(t, COMMA, k);
    if |fields| > 1 {
      SplitOfJoin(fields[1..]);
      assert t[k + 1..] == Join(fields[1..]);
    }
  }

  lemma {:induction false} JoinOfSplit(t: seq<byte>)
    ensures Join(Split(t)) == t
    decreases |t|
  {
    hide FirstIndex;
    var k := FirstIndex(t, COMMA);
    FirstComma(t);
    if k < |t| {
      JoinOfSplit(t[k + 1..]);
      assert Split(t)[1..] == Split(t[k + 1..]);
      assert t == t[..k] + [COMMA] + t[k + 1..];
    }
  }

  lemma FirstComma(t: seq<byte>)
    ensures var k := FirstIndex(t, COMMA); k <= |t| && (k < |t| ==> t[k] == COMMA)
  {
  }

  // ----- what is extracted -----

  /** The place after the start character, its repetitions and spaces. */
  ghost function SkipStart(t: seq<byte>, start: byte): (r: seq<byte>)
    ensures |r| <= |t| && r == t[|t| - |r|..]
  {
    if t != [] && (t[0] == start || t[0] == SPACE) then SkipStart(t[1..], start) else t
  }

  /** Where the data of a response begins: at the first start character, if there is one to look for. */
  ghost function DataPart(response: seq<byte>, start: byte): Option<seq<byte>> {
    if start == 0 then Some(response)
    else
      var k := FirstIndex(response, start);
      if k == |response| then None else Some(SkipStart(response[k..], start))
  }

  /**
   * The field that index picks out of n: past the last field it is the last one; and so it is for index
   * 255, because the field counter is a uint8_t and never exceeds it.
   */
  ghost function Picked(index: byte, n: nat): (i: nat)
    requires n > 0
    ensures i < n
  {
    if index == 255 || index >= n then n - 1 else index
  }

  ghost function Extract(response: seq<byte>, index: byte, start: byte, size: nat): Option<seq<byte>> {
    match DataPart(response, start)
    case None => None
    case Some(data) =>
      var fields := Split(data);
      if |fields| == 1 && index > 0 then None
      else
        var field := fields[Picked(index, |fields|)];
        var value := field[..FirstIndex(field, CR)];
        if |value| < size then Some(value) else None
  }

  // ----- what that means, for every response -----

  /** The data begins at k: at the front, or behind the first start character, its repetitions and spaces. */
  ghost predicate BeginsAt(response: seq<byte>, start: byte, k: nat) {
    if start == 0 then k == 0
    else k <= |response| && exists h: nat :: StartsAt(response, start, h, k)
  }

  ghost predicate StartsAt(response: seq<byte>, start: byte, h: nat, k: nat) {
    && h < k <= |response| && response[h] == start && start !in response[..h]
    && (forall i :: h <= i < k ==> response[i] == start || response[i] == ' ' as int)
    && (k < |response| ==> response[k] != start && response[k] != ' ' as int)
  }

  /** The field up to its first carriage return. */
  ghost predicate IsValue(value: seq<byte>, field: seq<byte>) {
    value <= field && '\r' as int !in value && (|value| < |field| ==> field[|value|] == '\r' as int)
  }

  /** value is what index picks out of the data that begins at k. */
  ghost predicate Holds(response: seq<byte>, index: byte, k: nat, value: seq<byte>) {
    && k <= |response|
    && (index == 0 || ',' as int in response[k..])
    && var fields := Split(response[k..]);
       IsValue(value, fields[Picked(index, |fields|)])
  }

  /**
   * Extracting succeeds exactly when there is no start character to look for or it occurs, the first
   * field is wanted or a comma follows, and the value is shorter than the destination; it then yields
   * that value. In all other cases it fails.
   */
  lemma ExtractForm(response: seq<byte>, index: byte, start: byte, size: nat, value: seq<byte>)
    ensures Extract(response, index, start, size) == Some(value)
            <==> |value| < size && exists k: nat :: BeginsAt(response, start, k) && Holds(response, index, k, value)
  {
    hide Extract, Holds, BeginsAt, FirstIndex;
    if start != 0 && start !in response {
      NoStart(response, index, start, size);
    } else {
      var k := DataBegins(response, start);
      ExtractFrom(response, index, start, size, k, value);
      forall j: nat | BeginsAt(response, start, j) ensures j == k {
        BeginsOnce(response, start, j, k);
      }
    }
  }

  /** Without the start character there is nothing to extract. */
  lemma NoStart(response: seq<byte>, index: byte, start: byte, size: nat)
    requires start != 0 && start !in response
    ensures Extract(response, index, start, size) == None
    ensures forall k: nat :: !BeginsAt(response, start, k)
  {
  }

  lemma DataBegins(response: seq<byte>, start: byte) returns (k: nat)
    requires start == 0 || start in response
    ensures k <= |response| && BeginsAt(response, start, k) && DataPart(response, start) == Some(response[k..])
  {
    k := 0;
    if start == 0 {
      assert response[0..] == response;
    } else {
      var h := FirstIndex(response, start);
      FirstIsFirst(response, start);
      var t := response[h..];
      SkipEnds(t, start);
      var r := SkipStart(t, start);
      k := |response| - |r|;
      assert t[|t| - |r|..] == response[k..];
      forall i | h <= i < k ensures response[i] == start || response[i] == ' ' as int {
        assert response[i] == t[i - h];
      }
      SkipsOne(t, start);
      assert StartsAt(response, start, h, k);
    }
  }

  lemma FirstIsFirst(s: seq<byte>, c: byte)
    requires c in s
    ensures var h := FirstIndex(s, c); h < |s| && s[h] == c && c !in s[..h]
  {
    hide FirstIndex;
  }

  lemma {:induction false} SkipEnds(t: seq<byte>, start: byte)
    ensures var r := SkipStart(t, start);
            && (r != [] ==> r[0] != start && r[0] != SPACE)
            && forall i :: 0 <= i < |t| - |r| ==> t[i] == start || t[i] == SPACE
  {
    if t != [] {
      SkipEnds(t[1..], start);
    }
  }

  lemma SkipsOne(t: seq<byte>, start: byte)
    requires t != [] && t[0] == start
    ensures |SkipStart(t, start)| < |t|
  {
  }

  lemma BeginsOnce(response: seq<byte>, start: byte, j: nat, k: nat)
    requires BeginsAt(response, start, j) && BeginsAt(response, start, k)
    ensures j == k
  {
    if start != 0 {
      var g: nat :| StartsAt(response, start, g, j);
      var h: nat :| StartsAt(response, start, h, k);
      FirstIndexIs(response, start, g);
      FirstIndexIs(response, start, h);
    }
  }

  lemma ExtractFrom(response: seq<byte>, index: byte, start: byte, size: nat, k: nat, value: seq<byte>)
    requires k <= |response| && DataPart(response, start) == Some(response[k..])
    ensures Extract(response, index, start, size) == Some(value) <==> |value| < size && Holds(response, index, k, value)
  {
    hide DataPart, Split, Picked;
    var data := response[k..];
    var fields := Split(data);
    OneFieldIff(data);
    var field := fields[Picked(index, |fields|)];
    CutIsValue(field, value);
  }

  lemma OneFieldIff(data: seq<byte>)
    ensures |Split(data)| == 1 <==> COMMA !in data
  {
    hide FirstIndex;
    FirstComma(data);
    if COMMA in data {
      FirstIsFirst(data, COMMA);
    }
  }

  lemma CutIsValue(field: seq<byte>, value: seq<byte>)
    ensures value == field[..FirstIndex(field, CR)] <==> IsValue(value, field)
  {
    hide FirstIndex;
    var n := FirstIndex(field, CR);
    if CR in field {
      FirstIsFirst(field, CR);
    } else {
      NotFound(field, CR);
    }
    if IsValue(value, field) {
      assert value == field[..|value|];
      FirstIndexIs(field, CR, |value|);
    }
  }

  lemma NotFound(s: seq<byte>, c: byte)
    requires c !in s
    ensures FirstIndex(s, c) == |s| && s[..|s|] == s
  {
    hide FirstIndex;
  }

  // ----- responses made of fields -----

  /** The text of a response between two commas. */
  ghost predicate InField(field: seq<byte>) {
    COMMA !in field && IsText(field)
  }

  ghost predicate Plain(field: seq<byte>) {
    COMMA !in field && CR !in field && IsText(field)
  }

  /**
   * The response's data part is the join of these fields: after anything without the start character
   * come the start character, any run of start characters and spaces, and the fields.
   */
  ghost predicate Carries(response: seq<byte>, start: byte, head: seq<byte>, pad: seq<byte>, fields: seq<seq<byte>>) {
    && fields != []
    && (start != 0 ==> fields[0] == [] || (fields[0][0] != start && fields[0][0] != SPACE))
    && (start != 0 ==> start != COMMA && start !in head && forall i :: 0 <= i < |pad| ==> pad[i] == start || pad[i] == SPACE)
    && response == if start == 0 then Join(fields) else head + [start] + pad + Join(fields)
  }

  lemma DataIsJoin(response: seq<byte>, start: byte, head: seq<byte>, pad: seq<byte>, fields: seq<seq<byte>>)
    requires Carries(response, start, head, pad, fields)
    ensures DataPart(response, start) == Some(Join(fields))
  {
    hide FirstIndex;
    if start != 0 {
      var joined := Join(fields);
      assert response[..|head|] == head && response[|head|] == start;
      FirstIndexIs(response, start, |head|);
      assert response[|head|..] == [start] + pad + joined;
      assert joined != [] ==> joined[0] != start && joined[0] != SPACE by {
        if fields[0] == [] && joined != [] {
          assert joined[0] == COMMA;
        }
      }
      SkipPad(start, [start] + pad, joined);
    }
  }

  lemma {:induction false} SkipPad(start: byte, pad: seq<byte>, rest: seq<byte>)
    requires forall i :: 0 <= i < |pad| ==> pad[i] == start || pad[i] == SPACE
    requires rest != [] ==> rest[0] != start && rest[0] != SPACE
    ensures SkipStart(pad + rest, start) == rest
  {
    if pad == [] {
      assert pad + rest == rest;
    } else {
      assert (pad + rest)[1..] == pad[1..] + rest;
      SkipPad(start, pad[1..], rest);
    }
  }

  /** What a caller who asks for a field expects: the field, if it is shorter than the destination. */
  ghost function Wanted(field: seq<byte>, size: nat): Option<seq<byte>> {
    if |field| < size then Some(field) else None
  }

  /** The field up to its first carriage return, as IsValue says. */
  ghost function BeforeReturn(field: seq<byte>): (value: seq<byte>)
    ensures IsValue(value, field)
  {
    CutIsValue(field, field[..FirstIndex(field, CR)]);
    field[..FirstIndex(field, CR)]
  }

  /** Every extraction is that of the field the counter stops at, up to its first carriage return. */
  lemma ExtractsThePicked(response: seq<byte>, start: byte, head: seq<byte>, pad: seq<byte>, fields: seq<seq<byte>>,
                          index: byte, size: nat)
    requires Carries(response, start, head, pad, fields) && forall i :: 0 <= i < |fields| ==> InField(fields[i])
    ensures fields != []
    ensures Extract(response, index, start, size)
            == if |fields| == 1 && index > 0 then None else Wanted(BeforeReturn(fields[Picked(index, |fields|)]), size)
  {
    hide FirstIndex, Split, Join, DataPart, Carries, Picked;
    DataIsJoin(response, start, head, pad, fields);
    CarriesSome(response, start, head, pad, fields);
    SplitOfJoin(fields);
  }

  lemma PlainIsWhole(field: seq<byte>)
    requires Plain(field)
    ensures InField(field) && BeforeReturn(field) == field
  {
    hide FirstIndex;
    NotFound(field, CR);
  }

  /**
   * Extracting one of the fields f0 to fn succeeds exactly when it is shorter than the destination, and
   * yields the field, empty ones included: for index 255 of more than 256 fields if and only if field 255
   * happens to be the last one's equal or neither of the two fits, and for every other index always.
   */
  lemma ExtractsTheField(response: seq<byte>, start: byte, head: seq<byte>, pad: seq<byte>, fields: seq<seq<byte>>,
                         index: byte, size: nat)
    requires Carries(response, start, head, pad, fields) && forall i :: 0 <= i < |fields| ==> Plain(fields[i])
    requires index < |fields|
    ensures Extract(response, index, start, size) == Wanted(fields[index], size)
            <==> var last := fields[|fields| - 1];
                 index < 255 || |fields| == 256 || fields[255] == last || (|fields[255]| >= size && |last| >= size)
  {
    hide Extract, Carries, Plain, InField, BeforeReturn;
    forall i | 0 <= i < |fields| ensures InField(fields[i]) && BeforeReturn(fields[i]) == fields[i] {
      PlainIsWhole(fields[i]);
    }
    ExtractsThePicked(response, start, head, pad, fields, index, size);
  }

  /** Field 255 of 257 is not what comes back. */
  lemma Index255CanMiss(fields: seq<seq<byte>>, response: seq<byte>)
    requires |fields| == 257 && fields[256] == [65] && forall i :: 0 <= i < 256 ==> fields[i] == []
    requires response == Join(fields)
    ensures Extract(response, 255, 0, 2) == Some([65]) && Wanted(fields[255], 2) == Some([])
  {
    hide Extract, Join, BeforeReturn;
    PlainIsWhole(fields[255]);
    PlainIsWhole(fields[256]);
    ExtractsThePicked(response, 0, [], [], fields, 255, 2);
  }

  lemma CarriesSome(response: seq<byte>, start: byte, head: seq<byte>, pad: seq<byte>, fields: seq<seq<byte>>)
    requires Carries(response, start, head, pad, fields)
    ensures fields != []
  {
  }

  /**
   * When a field that is not there is refused: exactly when the response has one field only, or the last
   * field does not fit. Otherwise the last field comes back instead.
   */
  lemma MissingFieldIff(response: seq<byte>, start: byte, head: seq<byte>, pad: seq<byte>, fields: seq<seq<byte>>,
                        index: byte, size: nat)
    requires Carries(response, start, head, pad, fields) && forall i :: 0 <= i < |fields| ==> Plain(fields[i])
    requires index >= |fields|
    ensures Extract(response, index, start, size) == None <==> |fields| == 1 || |fields[|fields| - 1]| >= size
    ensures Extract(response, index, start, size).Some? ==>
              Extract(response, index, start, size).value == fields[|fields| - 1]
  {
    hide Extract, Carries, Plain, InField, BeforeReturn;
    forall i | 0 <= i < |fields| ensures InField(fields[i]) && BeforeReturn(fields[i]) == fields[i] {
      PlainIsWhole(fields[i]);
    }
    ExtractsThePicked(response, start, head, pad, fields, index, size);
  }

  // ----- the C++ function -----

  /** A buffer that is a text and its terminating zero. */
  ghost predicate IsString(s: seq<byte>, text: seq<byte>) {
    IsText(text) && s == text + [0]
  }

  /** extractValueFromCommandResponse; the response is only read. */
  method ExtractValue(response: array<byte>, index: byte, dest: array<byte>, size: nat, start: byte) returns (ok: bool)
    requires 0 in response[..] && size <= dest.Length && dest != response
    modifies dest
    ensures var r := Extract(CStr(response[..]), index, start, size);
            && ok == r.Some?
            && (ok ==> |r.value| < size && dest[..|r.value|] == r.value && dest[|r.value|] == 0)
            && (!ok ==> dest[..] == old(dest[..]))
    ensures forall i :: size <= i < dest.Length ==> dest[i] == old(dest[i])
  {
    hide FirstIndex, CStr, Split, SkipStart, Picked, IsText, IsString;
    ghost var text := CStr(response[..]);
    var copy := CopyString(response);
    var data := 0;
    assert text[0..] == text && copy[0..] == copy[..];
    TextThenZero(copy[..], text, 0);
    if start != 0 {
      var found := StrChr(copy, 0, start);
      if found.None? {
        return false;
      }
      data := SkipAt(copy, text, found.value, start);
    }
    assert DataPart(text, start) == Some(text[data..]);
    var from, end, picked := PickField(copy, text, data, index);
    if !picked {
      return false;
    }
    ok := PutValue(copy, text, from, end, dest, size);
  }

  /** The local copy, with its terminating zero. */
  method CopyString(s: array<byte>) returns (copy: array<byte>)
    requires 0 in s[..]
    ensures fresh(copy) && IsString(copy[..], CStr(s[..]))
  {
    hide CStr;
    assert s[0..] == s[..];
    var length := StrLen(s, 0);
    ghost var text := CStr(s[..]);
    CStrOf(s[..]);
    copy := new byte[length + 1](_ => 0);
    for i := 0 to length
      invariant copy[..i] == text[..i] && copy[length] == 0
    {
      copy[i] := s[i];
    }
    assert copy[..] == text + [0];
  }

  lemma CStrOf(s: seq<byte>)
    requires 0 in s
    ensures CStr(s) <= s && IsText(CStr(s)) && |CStr(s)| < |s|
  {
  }

  /** The string at a place of a zero-terminated text. */
  lemma TextThenZero(s: seq<byte>, text: seq<byte>, at: nat)
    requires at <= |text| && IsString(s, text)
    ensures 0 in s[at..] && CStr(s[at..]) == text[at..]
  {
    var t := s[at..];
    assert t == text[at..] + [0] && t[|t| - 1] == 0;
    CStrIs(t, text[at..]);
  }

  /** Lines 927-928. */
  method SkipAt(copy: array<byte>, ghost text: seq<byte>, at: nat, start: byte) returns (data: nat)
    requires IsString(copy[..], text) && at <= |text| && start != 0
    ensures data <= |text| && text[data..] == SkipStart(text[at..], start)
  {
    hide IsText;
    data := at;
    assert copy[|text|] == 0;
    while copy[data] == start || copy[data] == SPACE
      invariant at <= data <= |text| && SkipStart(text[data..], start) == SkipStart(text[at..], start)
      decreases |text| - data
    {
      assert text[data] == copy[data] && text[data..][1..] == text[data + 1..];
      data := data + 1;
    }
    if data < |text| {
      assert text[data] == copy[data];
    }
  }

  /** Lines 935-972: from the start of the picked field to the comma or zero after it. */
  method PickField(copy: array<byte>, ghost text: seq<byte>, data: nat, index: byte) returns (from: nat, end: nat, picked: bool)
    requires IsString(copy[..], text) && data <= |text|
    ensures var fields := Split(text[data..]);
            && picked == !(|fields| == 1 && index > 0)
            && (picked ==> from <= end <= |text| && text[from..end] == fields[Picked(index, |fields|)])
  {
    hide FirstIndex, IsString, CStr, Split, NextComma;
    ghost var fields := Split(text[data..]);
    from := data;
    FieldAt(text, from);
    var comma := CommaFrom(copy, text, from);
    if comma.None? && index > 0 {
      return from, 0, false;
    }
    var valueIndex: byte := 1;
    ghost var n := 0;
    while comma.Some? && valueIndex <= index
      invariant data <= from <= |text| && n < |fields| && Split(text[from..]) == fields[n..]
      invariant comma == NextComma(text, from)
      invariant if index == 255 then true else n <= index && valueIndex as int == n + 1
      decreases |text| - from
    {
      FieldAt(text, from);
      assert fields[n..][1..] == fields[n + 1..];
      from := comma.value + 1;
      comma := CommaFrom(copy, text, from);
      valueIndex := if valueIndex == 255 then 0 else valueIndex + 1;
      n := n + 1;
      FieldAt(text, from);
    }
    FieldAt(text, from);
    assert n == Picked(index, |fields|);
    if comma.None? {
      end := StrLenAt(copy, text, data);
      end := data + end;
    } else {
      end := comma.value;
    }
    picked := true;
  }

  method CommaFrom(copy: array<byte>, ghost text: seq<byte>, from: nat) returns (comma: Option<nat>)
    requires IsString(copy[..], text) && from <= |text|
    ensures comma == NextComma(text, from)
  {
    hide CStr, IsText, FirstIndex;
    TextThenZero(copy[..], text, from);
    comma := StrChr(copy, from, COMMA);
  }

  method StrLenAt(copy: array<byte>, ghost text: seq<byte>, at: nat) returns (n: nat)
    requires IsString(copy[..], text) && at <= |text|
    ensures n == |text| - at
  {
    hide CStr, IsText;
    TextThenZero(copy[..], text, at);
    n := StrLen(copy, at);
  }

  /** The place of the first comma from here on. */
  ghost function NextComma(text: seq<byte>, from: nat): Option<nat>
    requires from <= |text|
  {
    var s := text[from..];
    if FirstIndex(s, COMMA) < |s| then Some(from + FirstIndex(s, COMMA)) else None
  }

  /** The first field from here on, and the others. */
  lemma FieldAt(text: seq<byte>, from: nat)
    requires from <= |text|
    ensures var comma, fields := NextComma(text, from), Split(text[from..]);
            && (comma.None? ==> |fields| == 1 && fields[0] == text[from..])
            && (comma.Some? ==>
                  && from <= comma.value < |text| && |fields| > 1
                  && fields[0] == text[from..comma.value] && fields[1..] == Split(text[comma.value + 1..]))
  {
    hide FirstIndex;
    var s := text[from..];
    FirstComma(s);
    var k := FirstIndex(s, COMMA);
    if k < |s| {
      assert s[..k] == text[from..from + k] && s[k + 1..] == text[from + k + 1..];
    }
  }

  /** Lines 975-988: the value ends at the field's end or at its first carriage return. */
  method PutValue(copy: array<byte>, ghost text: seq<byte>, from: nat, end: nat, dest: array<byte>, size: nat) returns (ok: bool)
    requires IsString(copy[..], text) && from <= end <= |text| && size <= dest.Length && dest != copy
    modifies copy, dest
    ensures var field := text[from..end];
            var value := field[..FirstIndex(field, CR)];
            && ok == (|value| < size)
            && (ok ==> dest[..|value|] == value && dest[|value|] == 0)
            && (!ok ==> dest[..] == old(dest[..]))
    ensures forall i :: size <= i < dest.Length ==> dest[i] == old(dest[i])
  {
    hide FirstIndex, CStr, IsText;
    CutValue(copy, text, from, end);
    var length := StrLen(copy, from);
    if length >= size {
      return false;
    }
    StrCpyTo(copy, from, length, dest);
    ok := true;
  }

  /** Lines 970-977: terminates the field at its end and at its first carriage return. */
  method CutValue(copy: array<byte>, ghost text: seq<byte>, from: nat, end: nat)
    requires IsString(copy[..], text) && from <= end <= |text|
    modifies copy
    ensures var field := text[from..end];
            0 in copy[from..] && CStr(copy[from..]) == field[..FirstIndex(field, CR)]
  {
    hide FirstIndex, CStr, IsText;
    ghost var field := text[from..end];
    copy[end] := 0;
    CutAt(copy[..], text, from, end);
    var cr := StrChr(copy, from, CR);
    FirstCr(field);
    ghost var n := FirstIndex(field, CR);
    if cr.Some? {
      copy[cr.value] := 0;
      CutAt(copy[..], text, from, from + n);
    }
    assert field[..n] == text[from..from + n];
  }

  /** strcpy of a string of this length. */
  method StrCpyTo(copy: array<byte>, from: nat, length: nat, dest: array<byte>)
    requires from <= copy.Length && 0 in copy[from..] && length == |CStr(copy[from..])|
    requires length < dest.Length && dest != copy
    modifies dest
    ensures dest[..length] == CStr(copy[from..]) && dest[length] == 0
    ensures forall i :: length < i < dest.Length ==> dest[i] == old(dest[i])
  {
    hide CStr;
    ghost var s := copy[from..];
    CStrOf(s);
    for i := 0 to length
      invariant dest[..i] == s[..i]
      invariant forall k :: i <= k < dest.Length ==> dest[k] == old(dest[k])
    {
      assert copy[from + i] == s[i];
      dest[i] := copy[from + i];
    }
    dest[length] := 0;
    assert dest[..length] == s[..length];
  }

  lemma FirstCr(field: seq<byte>)
    ensures FirstIndex(field, CR) <= |field|
  {
  }

  /** Writing a zero into a text ends the string there. */
  lemma CutAt(s: seq<byte>, text: seq<byte>, from: nat, end: nat)
    requires from <= end <= |text| && |s| == |text| + 1 && IsText(text)
    requires s[from..end] == text[from..end] && s[end] == 0
    ensures 0 in s[from..] && CStr(s[from..]) == text[from..end]
  {
    var t := s[from..];
    assert t[end - from] == 0 && t[..end - from] == text[from..end];
    CStrIs(t, text[from..end]);
  }
}
