/** Bytes, JavaScript strings, and the two conversions `arr2str` and `str2arr`
    of src/hardlock.js. */
module JsText {

  /** An element of a `Uint8Array`. */
  type byte = x: int | 0 <= x < 0x100

  /** A UTF-16 code unit: what `charCodeAt` returns and `String.fromCharCode` takes. */
  type CodeUnit = x: int | 0 <= x < 0x1_0000

  /** A JavaScript string is a sequence of UTF-16 code units. */
  type JsString = seq<CodeUnit>

  /** `arr2str`: `String.fromCharCode` applied to the bytes, one code unit per
      byte, each with the byte's value. Every byte is a code unit, so the
      string is the same sequence of numbers. */
  function Arr2Str(arr: seq<byte>): (s: JsString)
    ensures |s| == |arr|
    ensures forall i {:trigger s[i]} :: 0 <= i < |arr| ==> s[i] == arr[i] < 0x100
  {
    arr
  }

  /** The bytes a `Uint8Array` holds after each code unit of `s` is stored
      into it: a store into a `Uint8Array` keeps the value modulo 256. */
  function CharCodeBytes(s: JsString): (arr: seq<byte>)
    ensures |arr| == |s|
  {
    seq(|s|, i requires 0 <= i < |s| => s[i] % 0x100)
  }

  /** `str2arr`: fills a fresh `Uint8Array` of the string's length, code unit by code unit. */
  method Str2Arr(str: JsString) returns (arr: seq<byte>)
    ensures |arr| == |str|
    ensures forall i :: 0 <= i < |str| ==> arr[i] == str[i] % 0x100
    ensures arr == CharCodeBytes(str)
  {
    var a := new byte[|str|](_ => 0);
    var i := 0;
    var strLen := |str|;
    while i < strLen
      invariant 0 <= i <= strLen == |str| == a.Length
      invariant forall j :: 0 <= j < i ==> a[j] == str[j] % 0x100
    {
      a[i] := str[i] % 0x100;
      i := i + 1;
    }
    arr := a[..];
  }

  /** Every byte array survives the trip through a string and back. */
  lemma Str2ArrInvertsArr2Str(arr: seq<byte>)
    ensures CharCodeBytes(Arr2Str(arr)) == arr
  {
    var s := Arr2Str(arr);
    assert forall i :: 0 <= i < |arr| ==> CharCodeBytes(s)[i] == arr[i];
  }

  /** A string survives the trip through a byte array and back exactly when
      every code unit is below 256; above that the store truncates. */
  lemma Arr2StrInvertsStr2ArrIff(s: JsString)
    ensures Arr2Str(CharCodeBytes(s)) == s <==> forall i :: 0 <= i < |s| ==> s[i] < 0x100
  {
    var back := Arr2Str(CharCodeBytes(s));
    if forall i :: 0 <= i < |s| ==> s[i] < 0x100 {
      assert forall i :: 0 <= i < |s| ==> back[i] == s[i];
    } else {
      var i :| 0 <= i < |s| && s[i] >= 0x100;
      assert back[i] < 0x100;
    }
  }
}
