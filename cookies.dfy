/**
 * `JNUCourseSnatcher.cookies_str_to_dict` (core.py): the value of a `Cookie`
 * header, `name=value` pairs joined by "; " as in the cookie-string of
 * section 4.2.1 of RFC 6265, turned into a name-to-value map.
 */
module Cookies {
  import opened Base
  import opened Strs

  /** The entry one "; "-separated segment contributes: none without an `=`. */
  function Entry(segment: string): Option<(string, string)>
  {
    if Contains(segment, "=") then
      var parts := SplitOnce(segment, "=");
      Some((Strip(parts[0]), StripQuotes(Strip(parts[1]))))
    else None
  }

  /** The entries of the segments, in order. */
  function EntriesOf(segments: seq<string>): (r: seq<Option<(string, string)>>)
    ensures |r| == |segments|
    ensures forall i :: 0 <= i < |segments| ==> r[i] == Entry(segments[i])
  {
    seq(|segments|, i requires 0 <= i < |segments| => Entry(segments[i]))
  }

  /** The map after the entries have been stored one after the other, later ones overwriting. */
  function StoreAll(entries: seq<Option<(string, string)>>): map<string, string>
  {
    if entries == [] then map[]
    else
      var m := StoreAll(entries[..|entries| - 1]);
      match entries[|entries| - 1]
      case None => m
      case Some((name, value)) => m[name := value]
  }

  /** The dictionary `cookies_str_to_dict` builds from the segments of the header. */
  function CookieMap(segments: seq<string>): map<string, string>
  {
    StoreAll(EntriesOf(segments))
  }

  lemma StoreOneMore(entries: seq<Option<(string, string)>>, i: nat)
    requires i < |entries|
    ensures StoreAll(entries[..i + 1]) ==
      match entries[i]
      case None => StoreAll(entries[..i])
      case Some((name, value)) => StoreAll(entries[..i])[name := value]
  {
    assert entries[..i + 1][..i] == entries[..i];
  }

  /** Fills the dictionary segment by segment; never fails, whatever the input. */
  method CookiesStrToDict(cookies: string) returns (d: map<string, string>)
    ensures d == CookieMap(Split(cookies, "; "))
  {
    d := map[];
    var segments := Split(cookies, "; ");
    ghost var entries := EntriesOf(segments);
    for i := 0 to |segments|
      invariant d == StoreAll(entries[..i])
    {
      var segment := segments[i];
      StoreOneMore(entries, i);
      if Contains(segment, "=") {
        var parts := SplitOnce(segment, "=");
        d := d[Strip(parts[0]) := StripQuotes(Strip(parts[1]))];
      }
    }
    assert entries[..|segments|] == entries;
  }

  /**
   * Only the first `=` separates name from value: the value keeps any later `=`.
   * The name is whitespace-trimmed; the value is trimmed and then loses its
   * leading and trailing quote characters.
   */
  lemma EntryOfPair(name: string, raw: string)
    requires !Contains(name, "=")
    ensures Entry(name + "=" + raw) == Some((Strip(name), StripQuotes(Strip(raw))))
  {
    var s := name + "=" + raw;
    BorderFreeIfHeadUnique("=");
    FindAfter(name, "=", raw);
    assert s[..|name|] == name && s[|name| + 1..] == raw;
  }

  /** A name is in the map exactly when some entry carries it. */
  lemma {:induction false} StoreAllKeys(entries: seq<Option<(string, string)>>, name: string)
    ensures name in StoreAll(entries) <==>
      exists i :: 0 <= i < |entries| && entries[i].Some? && entries[i].value.0 == name
    decreases |entries|
  {
    if entries != [] {
      var init := entries[..|entries| - 1];
      StoreAllKeys(init, name);
      assert forall i :: 0 <= i < |init| ==> init[i] == entries[i];
    }
  }

  /** A repeated name keeps the value of its last entry. */
  lemma {:induction false} StoreAllLastWins(entries: seq<Option<(string, string)>>, i: nat, name: string, value: string)
    requires i < |entries| && entries[i] == Some((name, value))
    requires forall j :: i < j < |entries| && entries[j].Some? ==> entries[j].value.0 != name
    ensures name in StoreAll(entries) && StoreAll(entries)[name] == value
    decreases |entries|
  {
    var init := entries[..|entries| - 1];
    if i < |entries| - 1 {
      assert init[i] == entries[i];
      forall j | i < j < |init| && init[j].Some? ensures init[j].value.0 != name {
        assert init[j] == entries[j];
      }
      StoreAllLastWins(init, i, name, value);
    }
  }

  /** An absent entry changes nothing: dropping it leaves the map as it was. */
  lemma {:induction false} StoreAllSkip(entries: seq<Option<(string, string)>>, i: nat)
    requires i < |entries| && entries[i].None?
    ensures StoreAll(entries) == StoreAll(entries[..i] + entries[i + 1..])
    decreases |entries|
  {
    var rest := entries[..i] + entries[i + 1..];
    if i == |entries| - 1 {
      assert rest == entries[..|entries| - 1];
    } else {
      var init := entries[..|entries| - 1];
      StoreAllSkip(init, i);
      assert init[..i] + init[i + 1..] == rest[..|rest| - 1];
      assert rest[|rest| - 1] == entries[|entries| - 1];
    }
  }

  /** A name is in the dictionary exactly when some segment with an `=` carries it. */
  lemma CookieMapKeys(segments: seq<string>, name: string)
    ensures name in CookieMap(segments) <==>
      exists i :: 0 <= i < |segments| && Contains(segments[i], "=") && Entry(segments[i]).value.0 == name
  {
    var entries := EntriesOf(segments);
    StoreAllKeys(entries, name);
    assert forall i :: 0 <= i < |segments| ==> entries[i] == Entry(segments[i]);
  }

  /** A repeated name keeps the value of its last segment. */
  lemma CookieMapLastWins(segments: seq<string>, i: nat, name: string, value: string)
    requires i < |segments| && Entry(segments[i]) == Some((name, value))
    requires forall j :: i < j < |segments| && Contains(segments[j], "=") ==> Entry(segments[j]).value.0 != name
    ensures name in CookieMap(segments) && CookieMap(segments)[name] == value
  {
    StoreAllLastWins(EntriesOf(segments), i, name, value);
  }

  /** A segment without `=` contributes no entry: dropping it leaves the dictionary as it was. */
  lemma SkipSegmentWithoutEquals(segments: seq<string>, i: nat)
    requires i < |segments| && !Contains(segments[i], "=")
    ensures CookieMap(segments) == CookieMap(segments[..i] + segments[i + 1..])
  {
    var entries := EntriesOf(segments);
    var rest := segments[..i] + segments[i + 1..];
    StoreAllSkip(entries, i);
    forall j | 0 <= j < |rest| ensures EntriesOf(rest)[j] == (entries[..i] + entries[i + 1..])[j] {
      if j < i {
        assert rest[j] == segments[j];
      } else {
        assert rest[j] == segments[j + 1];
      }
    }
    assert EntriesOf(rest) == entries[..i] + entries[i + 1..];
  }

  /** A cookie name that reads back as itself. */
  predicate GoodName(name: string)
  {
    !Contains(name, "=") && !Contains(name, "; ") && Bare(name, IsSpace)
  }

  /** A cookie value that reads back as itself (it may contain `=`). */
  predicate GoodValue(value: string)
  {
    !Contains(value, "; ") && Bare(value, IsSpace) && Bare(value, IsQuote)
  }

  /** The segments `name=value` a header is made of. */
  function Segments(pairs: seq<(string, string)>): (r: seq<string>)
    ensures |r| == |pairs|
    ensures forall i :: 0 <= i < |pairs| ==> r[i] == pairs[i].0 + "=" + pairs[i].1
  {
    if pairs == [] then [] else Segments(pairs[..|pairs| - 1]) + [pairs[|pairs| - 1].0 + "=" + pairs[|pairs| - 1].1]
  }

  /** A `Cookie` header written from name/value pairs. */
  function SerializeCookies(pairs: seq<(string, string)>): string
  {
    Join(Segments(pairs), "; ")
  }

  /** The map the pairs denote, a later pair overriding an earlier one with the same name. */
  function PairsMap(pairs: seq<(string, string)>): map<string, string>
  {
    if pairs == [] then map[]
    else PairsMap(pairs[..|pairs| - 1])[pairs[|pairs| - 1].0 := pairs[|pairs| - 1].1]
  }

  /** `"; "` occurs at `j` exactly when its two characters do. */
  lemma SeparatorAt(s: string, j: nat)
    ensures OccursAt(s, "; ", j) <==> j + 2 <= |s| && s[j] == ';' && s[j + 1] == ' '
  {
    if j + 2 <= |s| && s[j] == ';' && s[j + 1] == ' ' {
      assert s[j..j + 2] == "; ";
    }
  }

  lemma NoSeparatorAcross(name: string, value: string)
    requires !Contains(name, "; ") && !Contains(value, "; ")
    ensures !Contains(name + "=" + value, "; ")
  {
    var s := name + "=" + value;
    forall j: nat | j <= |s| ensures !OccursAt(s, "; ", j) {
      SeparatorAt(s, j);
      if j + 2 <= |name| {
        SeparatorAt(name, j);
        assert s[j] == name[j] && s[j + 1] == name[j + 1];
      } else if j + 2 <= |s| && j > |name| {
        var t := j - |name| - 1;
        SeparatorAt(value, t);
        assert s[j] == value[t] && s[j + 1] == value[t + 1];
      } else if j + 2 <= |s| {
        assert s[|name|] == '=';
      }
    }
  }

  /** The entries the pairs themselves would make. */
  function PairEntries(pairs: seq<(string, string)>): (r: seq<Option<(string, string)>>)
    ensures |r| == |pairs| && forall i :: 0 <= i < |pairs| ==> r[i] == Some(pairs[i])
  {
    seq(|pairs|, i requires 0 <= i < |pairs| => Some(pairs[i]))
  }

  lemma {:induction false} StorePairs(pairs: seq<(string, string)>)
    ensures StoreAll(PairEntries(pairs)) == PairsMap(pairs)
    decreases |pairs|
  {
    if pairs != [] {
      var init := pairs[..|pairs| - 1];
      assert PairEntries(pairs)[..|pairs| - 1] == PairEntries(init);
      StorePairs(init);
    }
  }

  /** A well-behaved pair reads back as itself. */
  lemma EntryOfGoodPair(name: string, value: string)
    requires GoodName(name) && GoodValue(value)
    ensures Entry(name + "=" + value) == Some((name, value))
  {
    EntryOfPair(name, value);
    StripNothing(name, IsSpace);
    StripNothing(value, IsSpace);
    StripNothing(value, IsQuote);
  }

  lemma CookieMapOfSegments(pairs: seq<(string, string)>)
    requires forall i :: 0 <= i < |pairs| ==> GoodName(pairs[i].0) && GoodValue(pairs[i].1)
    ensures CookieMap(Segments(pairs)) == PairsMap(pairs)
  {
    var segments := Segments(pairs);
    var entries := EntriesOf(segments);
    forall i | 0 <= i < |pairs| ensures entries[i] == Some(pairs[i]) {
      EntryOfGoodPair(pairs[i].0, pairs[i].1);
    }
    assert entries == PairEntries(pairs);
    StorePairs(pairs);
  }

  /** Splitting a written header on `"; "` gives back its segments. */
  lemma SplitSerialized(pairs: seq<(string, string)>)
    requires pairs != []
    requires forall i :: 0 <= i < |pairs| ==> GoodName(pairs[i].0) && GoodValue(pairs[i].1)
    ensures Split(SerializeCookies(pairs), "; ") == Segments(pairs)
  {
    SegmentsFree(pairs);
    BorderFreeIfHeadUnique("; ");
    SplitJoin(Segments(pairs), "; ");
  }

  /** No segment written from well-behaved pairs contains the separator. */
  lemma SegmentsFree(pairs: seq<(string, string)>)
    requires forall i :: 0 <= i < |pairs| ==> GoodName(pairs[i].0) && GoodValue(pairs[i].1)
    ensures forall k :: 0 <= k < |pairs| ==> !Contains(Segments(pairs)[k], "; ")
  {
    forall k | 0 <= k < |pairs| ensures !Contains(Segments(pairs)[k], "; ") {
      NoSeparatorAcross(pairs[k].0, pairs[k].1);
    }
  }

  /**
   * Reading back a header written from well-behaved pairs gives the map they
   * denote: `parse(serialize(m)) == m`.
   */
  lemma CookieRoundTrip(pairs: seq<(string, string)>)
    requires forall i :: 0 <= i < |pairs| ==> GoodName(pairs[i].0) && GoodValue(pairs[i].1)
    ensures CookieMap(Split(SerializeCookies(pairs), "; ")) == PairsMap(pairs)
  {
    if pairs == [] {
      assert Split("", "; ") == [""];
      assert !Contains("", "=");
    } else {
      SplitSerialized(pairs);
      CookieMapOfSegments(pairs);
    }
  }
}
