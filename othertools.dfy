/** The base-62 codec: strings over '0'-'9', 'a'-'z', 'A'-'Z' and the
    sequences of digit values 0..61 they stand for. */
module OtherTools {
  import opened Basics

  /** `string.digits`, `string.ascii_lowercase` and `string.ascii_uppercase`. */
  function CharRun(first: char, count: nat): (r: string)
    requires first as int + count <= 0xD800
    ensures |r| == count
    ensures forall i :: 0 <= i < count ==> r[i] as int == first as int + i
  {
    seq(count, i requires 0 <= i < count => (first as int + i) as char)
  }

  /** `BASE62_CHARS = string.digits + string.ascii_letters`. */
  const Base62Chars: string := CharRun('0', 10) + CharRun('a', 26) + CharRun('A', 26)

  lemma Base62Shape()
    ensures |Base62Chars| == 62
    ensures forall i :: 0 <= i < 10 ==> Base62Chars[i] as int == '0' as int + i
    ensures forall i :: 10 <= i < 36 ==> Base62Chars[i] as int == 'a' as int + (i - 10)
    ensures forall i :: 36 <= i < 62 ==> Base62Chars[i] as int == 'A' as int + (i - 36)
  {
  }

  /** `BASE62_LOOKUP[c]`: the position of `c` in the alphabet, or None where
      the dictionary has no key `c`. */
  function Lookup(c: char): (r: Option<nat>)
    ensures r.Some? <==> c in Base62Chars
    ensures r.Some? ==> r.value < 62 && Base62Chars[r.value] == c
  {
    Base62Shape();
    if '0' <= c <= '9' then
      assert Base62Chars[c as int - '0' as int] == c;
      Some(c as int - '0' as int)
    else if 'a' <= c <= 'z' then
      assert Base62Chars[10 + (c as int - 'a' as int)] == c;
      Some(10 + (c as int - 'a' as int))
    else if 'A' <= c <= 'Z' then
      assert Base62Chars[36 + (c as int - 'A' as int)] == c;
      Some(36 + (c as int - 'A' as int))
    else
      None
  }

  /** The alphabet has no repeated character, so `BASE62_LOOKUP` inverts
      `BASE62_CHARS` exactly. */
  lemma LookupInverts(i: nat)
    requires i < 62
    ensures Lookup(Base62Chars[i]) == Some(i)
  {
    Base62Shape();
  }

  /** `bytes_from_str62(s)`: each character's value; a character outside the
      alphabet is a KeyError, re-raised as ValueError. */
  function BytesFromStr62(s: string): (r: Result<seq<nat>>)
    ensures r.Ok? <==> forall i :: 0 <= i < |s| ==> s[i] in Base62Chars
    ensures r.Ok? ==> |r.value| == |s|
    ensures r.Ok? ==> forall i :: 0 <= i < |s| ==> r.value[i] < 62 && Base62Chars[r.value[i]] == s[i]
    ensures r.Err? ==> r.error == ValueError
  {
    if s == [] then Ok([])
    else
      match Lookup(s[0])
      case None => Err(ValueError)
      case Some(d) =>
        match BytesFromStr62(s[1..])
        case Err(e) => Err(e)
        case Ok(rest) => Ok([d] + rest)
  }

  /** Python's `BASE62_CHARS[i]`: a negative index counts from the end. */
  function CharAt(i: int): (r: Option<char>)
    ensures r.Some? <==> -62 <= i < 62
    ensures 0 <= i < 62 ==> r == Some(Base62Chars[i])
    ensures -62 <= i < 0 ==> r == Some(Base62Chars[62 + i])
  {
    Base62Shape();
    if 0 <= i < 62 then Some(Base62Chars[i])
    else if -62 <= i < 0 then Some(Base62Chars[62 + i])
    else None
  }

  /** `str62_from_bytes(seq)`: the character for each value; an IndexError
      from an out-of-range value is re-raised as ValueError. */
  function Str62FromBytes(b: seq<int>): (r: Result<string>)
    ensures r.Ok? <==> forall i :: 0 <= i < |b| ==> -62 <= b[i] < 62
    ensures r.Ok? ==> |r.value| == |b|
    ensures r.Ok? ==> forall i :: 0 <= i < |b| ==> Some(r.value[i]) == CharAt(b[i])
    ensures r.Err? ==> r.error == ValueError
  {
    if b == [] then Ok("")
    else
      match CharAt(b[0])
      case None => Err(ValueError)
      case Some(c) =>
        match Str62FromBytes(b[1..])
        case Err(e) => Err(e)
        case Ok(rest) => Ok([c] + rest)
  }

  /** Decoding then encoding gives back any string over the alphabet. */
  lemma StrRoundTrip(s: string)
    requires forall i :: 0 <= i < |s| ==> s[i] in Base62Chars
    ensures BytesFromStr62(s).Ok?
    ensures Str62FromBytes(BytesFromStr62(s).value) == Ok(s)
  {
    var b := BytesFromStr62(s).value;
    var t := Str62FromBytes(b);
    assert t.Ok?;
    assert t.value == s;
  }

  /** Encoding then decoding gives back any sequence of values 0..61. */
  lemma BytesRoundTrip(b: seq<int>)
    requires forall i :: 0 <= i < |b| ==> 0 <= b[i] < 62
    ensures Str62FromBytes(b).Ok?
    ensures BytesFromStr62(Str62FromBytes(b).value).Ok?
    ensures BytesFromStr62(Str62FromBytes(b).value).value == b
  {
    var s := Str62FromBytes(b).value;
    var d := BytesFromStr62(s);
    assert d.Ok?;
    forall i | 0 <= i < |b| ensures d.value[i] == b[i] {
      LookupInverts(b[i]);
      LookupInverts(d.value[i]);
    }
  }

  /** A negative value is Python's index from the end: -1 is the last
      character, 'Z'. */
  lemma NegativeWraps()
    ensures Str62FromBytes([-1]) == Ok("Z")
    ensures Str62FromBytes([-62]) == Ok("0")
  {
    Base62Shape();
    var r := Str62FromBytes([-1]).value;
    assert r[0] == Base62Chars[61] == 'Z';
    assert r == "Z";
    var t := Str62FromBytes([-62]).value;
    assert t[0] == Base62Chars[0] == '0';
    assert t == "0";
  }

  /** Each decoded value is the dictionary entry for its character. */
  lemma DecodedByLookup(s: string, i: nat)
    requires BytesFromStr62(s).Ok? && i < |s|
    ensures Lookup(s[i]) == Some(BytesFromStr62(s).value[i])
  {
    LookupInverts(BytesFromStr62(s).value[i]);
  }

  lemma DecodeExample()
    ensures BytesFromStr62("09azAZ") == Ok([0, 9, 10, 35, 36, 61])
  {
    var s := "09azAZ";
    assert Lookup(s[0]).Some? && Lookup(s[1]).Some? && Lookup(s[2]).Some?;
    assert Lookup(s[3]).Some? && Lookup(s[4]).Some? && Lookup(s[5]).Some?;
    assert forall i :: 0 <= i < |s| ==> s[i] in Base62Chars;
    var b := BytesFromStr62(s).value;
    DecodedByLookup(s, 0);
    DecodedByLookup(s, 1);
    DecodedByLookup(s, 2);
    DecodedByLookup(s, 3);
    DecodedByLookup(s, 4);
    DecodedByLookup(s, 5);
    assert |b| == 6 && b[0] == 0 && b[1] == 9 && b[2] == 10 && b[3] == 35 && b[4] == 36 && b[5] == 61;
    assert b == [0, 9, 10, 35, 36, 61];
  }

  lemma EncodeExample()
    ensures Str62FromBytes([0, 9, 10, 35, 36, 61]) == Ok("09azAZ")
  {
    DecodeExample();
    StrRoundTrip("09azAZ");
  }

  lemma ErrorExamples()
    ensures BytesFromStr62("abc$") == Err(ValueError)
    ensures Str62FromBytes([62]) == Err(ValueError)
  {
    assert Lookup("abc$"[3]) == None;
  }
}
