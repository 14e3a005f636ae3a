/**
 * The JSON texts the snatcher writes and reads: objects whose members are
 * strings or nested objects. `Encode` is `json.dumps(v, separators=(',', ':'))`
 * for strings that need no escaping; `Decode` reads that same subset back.
 */
module CompactJson {
  import opened Base

  datatype Value = Str(s: string) | Obj(members: seq<Member>)
  datatype Member = Member(key: string, value: Value)

  /** A character `json.dumps` writes verbatim: printable ASCII other than a quote or a backslash. */
  predicate PlainChar(c: char)
  {
    ' ' <= c <= '~' && c != '"' && c != '\\'
  }

  /** A string `json.dumps` writes verbatim. */
  predicate Plain(s: string)
  {
    forall i :: 0 <= i < |s| ==> PlainChar(s[i])
  }

  /** Every key and every string in `v` is plain. */
  predicate WellFormed(v: Value)
    decreases v
  {
    match v
    case Str(s) => Plain(s)
    case Obj(ms) => MembersWellFormed(ms)
  }

  predicate MembersWellFormed(ms: seq<Member>)
    decreases ms
  {
    ms != [] ==> Plain(ms[0].key) && WellFormed(ms[0].value) && MembersWellFormed(ms[1..])
  }

  /** `json.dumps(v, separators=(',', ':'))`: keys in insertion order, no whitespace. */
  function Encode(v: Value): string
    decreases v
  {
    match v
    case Str(s) => "\"" + s + "\""
    case Obj(ms) => "{" + EncodeMembers(ms) + "}"
  }

  function EncodeMembers(ms: seq<Member>): string
    decreases ms
  {
    if ms == [] then ""
    else
      var first := "\"" + ms[0].key + "\":" + Encode(ms[0].value);
      if |ms| == 1 then first else first + "," + EncodeMembers(ms[1..])
  }

  /** Reads string characters up to the closing quote; gives the content and what follows the quote. */
  function ReadString(s: string): (r: Option<(string, string)>)
    ensures r.Some? ==> |r.value.1| < |s|
  {
    if s == [] || s[0] == '\\' then None
    else if s[0] == '"' then Some(([], s[1..]))
    else
      match ReadString(s[1..])
      case None => None
      case Some((t, rest)) => Some(([s[0]] + t, rest))
  }

  /** Reads one value from the front of `s`; gives the value and the unread rest. */
  function DecodeValue(s: string): (r: Option<(Value, string)>)
    ensures r.Some? ==> |r.value.1| < |s|
    decreases |s|, 1
  {
    if s == [] then None
    else if s[0] == '"' then
      match ReadString(s[1..])
      case None => None
      case Some((t, rest)) => Some((Str(t), rest))
    else if s[0] == '{' then
      if |s| >= 2 && s[1] == '}' then Some((Obj([]), s[2..]))
      else
        match DecodeMembers(s[1..])
        case None => None
        case Some((ms, rest)) => Some((Obj(ms), rest))
    else None
  }

  /** Reads `"key":value` members separated by `,` up to and including the closing `}`. */
  function DecodeMembers(s: string): (r: Option<(seq<Member>, string)>)
    ensures r.Some? ==> |r.value.1| < |s|
    decreases |s|, 0
  {
    if s == [] || s[0] != '"' then None
    else
      match ReadString(s[1..])
      case None => None
      case Some((k, r1)) =>
        if r1 == [] || r1[0] != ':' then None
        else
          match DecodeValue(r1[1..])
          case None => None
          case Some((v, r2)) =>
            if r2 == [] then None
            else if r2[0] == '}' then Some(([Member(k, v)], r2[1..]))
            else if r2[0] == ',' then
              match DecodeMembers(r2[1..])
              case None => None
              case Some((ms, r3)) => Some(([Member(k, v)] + ms, r3))
            else None
  }

  /** `json.loads` restricted to this subset: one value and nothing after it. */
  function Decode(s: string): Option<Value>
  {
    match DecodeValue(s)
    case Some((v, rest)) => if rest == [] then Some(v) else None
    case None => None
  }

  /** Python's `obj[key]` on a decoded object: the last member with that key wins. */
  function Get(v: Value, key: string): (r: Option<Value>)
    ensures r.Some? ==> v.Obj? && exists i :: 0 <= i < |v.members| && v.members[i] == Member(key, r.value)
    ensures r.None? ==> v.Str? || forall i :: 0 <= i < |v.members| ==> v.members[i].key != key
  {
    match v
    case Str(_) => None
    case Obj(ms) => GetMember(ms, key)
  }

  function GetMember(ms: seq<Member>, key: string): (r: Option<Value>)
    ensures r.Some? ==> exists i :: 0 <= i < |ms| && ms[i] == Member(key, r.value)
    ensures r.None? ==> forall i :: 0 <= i < |ms| ==> ms[i].key != key
  {
    if ms == [] then None
    else if ms[|ms| - 1].key == key then Some(ms[|ms| - 1].value)
    else GetMember(ms[..|ms| - 1], key)
  }

  lemma {:induction false} ReadPlain(t: string, rest: string)
    requires Plain(t)
    ensures ReadString(t + "\"" + rest) == Some((t, rest))
    decreases |t|
  {
    var s := t + "\"" + rest;
    if t != [] {
      assert s[0] == t[0] && s[1..] == t[1..] + "\"" + rest;
      ReadPlain(t[1..], rest);
      assert [t[0]] + t[1..] == t;
    } else {
      assert s[1..] == rest;
    }
  }

  /** One member followed by `tail`: the decoder reads the key, the colon and the value, and stops at `tail`. */
  lemma MemberStep(k: string, v: Value, tail: string)
    requires Plain(k) && WellFormed(v)
    decreases v, 3
    ensures var s := "\"" + k + "\":" + Encode(v) + tail;
      var r1 := ":" + Encode(v) + tail;
      && s != [] && s[0] == '"'
      && ReadString(s[1..]) == Some((k, r1))
      && r1 != [] && r1[0] == ':'
      && DecodeValue(r1[1..]) == Some((v, tail))
  {
    var r1 := ":" + Encode(v) + tail;
    var s := "\"" + k + "\":" + Encode(v) + tail;
    assert s[1..] == k + "\"" + r1;
    assert r1[1..] == Encode(v) + tail;
    ReadPlain(k, r1);
    DecodeEncodeRest(v, tail);
  }

  /** Decoding an encoded value, followed by anything, gives the value and that rest back. */
  lemma {:induction false} DecodeEncodeRest(v: Value, rest: string)
    requires WellFormed(v)
    ensures DecodeValue(Encode(v) + rest) == Some((v, rest))
    decreases v, 2
  {
    match v
    case Str(t) =>
      var s := Encode(v) + rest;
      assert s[1..] == t + "\"" + rest;
      ReadPlain(t, rest);
    case Obj(ms) =>
      var s := Encode(v) + rest;
      if ms == [] {
        assert Encode(v) == "{}";
        assert s[2..] == rest;
      } else {
        assert s[1..] == EncodeMembers(ms) + "}" + rest;
        DecodeEncodeMembers(ms, rest);
      }
  }

  /** What follows the first member of an encoded member list, up to the end of the text. */
  function AfterFirst(ms: seq<Member>, rest: string): string
    requires ms != []
  {
    if |ms| == 1 then "}" + rest else "," + EncodeMembers(ms[1..]) + "}" + rest
  }

  lemma FirstMemberShape(ms: seq<Member>, rest: string)
    requires ms != []
    ensures EncodeMembers(ms) + "}" + rest
      == "\"" + ms[0].key + "\":" + Encode(ms[0].value) + AfterFirst(ms, rest)
  {
  }

  /** The text after the first member starts with `}` when it was the only one, else with `,` and the others. */
  lemma AfterFirstShape(ms: seq<Member>, rest: string)
    requires ms != []
    ensures var tail := AfterFirst(ms, rest);
      tail != [] && (|ms| == 1 ==> tail[0] == '}' && tail[1..] == rest) &&
      (|ms| > 1 ==> tail[0] == ',' && tail[1..] == EncodeMembers(ms[1..]) + "}" + rest)
  {
    var tail := AfterFirst(ms, rest);
    if |ms| > 1 {
      assert tail[1..] == EncodeMembers(ms[1..]) + "}" + rest;
    } else {
      assert tail[1..] == rest;
    }
  }

  /** One step of the member decoder, once the first member has been read. */
  lemma DecodeMembersUnfold(s: string, k: string, v: Value, r1: string, tail: string)
    requires s != [] && s[0] == '"' && ReadString(s[1..]) == Some((k, r1))
    requires r1 != [] && r1[0] == ':' && DecodeValue(r1[1..]) == Some((v, tail))
    ensures tail != [] && tail[0] == '}' ==> DecodeMembers(s) == Some(([Member(k, v)], tail[1..]))
    ensures tail != [] && tail[0] == ',' && DecodeMembers(tail[1..]).Some? ==>
      DecodeMembers(s) == Some(([Member(k, v)] + DecodeMembers(tail[1..]).value.0, DecodeMembers(tail[1..]).value.1))
  {
  }

  lemma {:induction false} DecodeEncodeMembers(ms: seq<Member>, rest: string)
    requires ms != [] && MembersWellFormed(ms)
    ensures DecodeMembers(EncodeMembers(ms) + "}" + rest) == Some((ms, rest))
    decreases ms, 1
  {
    var m := ms[0];
    var tail := AfterFirst(ms, rest);
    var s := EncodeMembers(ms) + "}" + rest;
    FirstMemberShape(ms, rest);
    AfterFirstShape(ms, rest);
    MemberStep(m.key, m.value, tail);
    var r1 := ":" + Encode(m.value) + tail;
    assert s == "\"" + m.key + "\":" + Encode(m.value) + tail;
    assert ReadString(s[1..]) == Some((m.key, r1));
    assert DecodeValue(r1[1..]) == Some((m.value, tail));
    DecodeMembersUnfold(s, m.key, m.value, r1, tail);
    if |ms| > 1 {
      DecodeEncodeMembers(ms[1..], rest);
      assert [m] + ms[1..] == ms;
    } else {
      assert [m] == ms;
    }
  }

  /** `Decode` inverts `Encode` on well-formed values. */
  lemma DecodeEncode(v: Value)
    requires WellFormed(v)
    ensures Decode(Encode(v)) == Some(v)
  {
    DecodeEncodeRest(v, "");
    assert Encode(v) + "" == Encode(v);
  }

  /** An object is well-formed when each of its keys is plain and each of its values well-formed. */
  lemma {:induction false} MembersWellFormedAll(ms: seq<Member>)
    requires forall i :: 0 <= i < |ms| ==> Plain(ms[i].key) && WellFormed(ms[i].value)
    ensures MembersWellFormed(ms)
    decreases |ms|
  {
    if ms != [] {
      MembersWellFormedAll(ms[1..]);
    }
  }

  /** The lookup finds the member at `i` when no later member has the same key. */
  lemma {:induction false} GetMemberLast(ms: seq<Member>, i: nat, key: string)
    requires i < |ms| && ms[i].key == key
    requires forall j :: i < j < |ms| ==> ms[j].key != key
    ensures GetMember(ms, key) == Some(ms[i].value)
    decreases |ms|
  {
    if i < |ms| - 1 {
      GetMemberLast(ms[..|ms| - 1], i, key);
    }
  }
}
