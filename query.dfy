/** The query-string handling of the WebSocket route: the query is split on
    '&', each pair on '=', and the last `playerId` and `roomId` values seen
    are kept. Values are taken as written (no percent-decoding). */
module Query {
  import opened Wrappers

  /** `s.split(sep)`: the pieces of s between occurrences of sep, in order.
      There is always at least one piece; the empty string gives [""]. */
  function Split(s: string, sep: char): (parts: seq<string>)
    ensures |parts| >= 1
    ensures forall i :: 0 <= i < |parts| ==> sep !in parts[i]
    decreases |s|
  {
    if s == [] then [""]
    else
      var rest := Split(s[1..], sep);
      if s[0] == sep then [""] + rest
      else [[s[0]] + rest[0]] + rest[1..]
  }

  /** The pieces glued back together with sep between neighbours. */
  function JoinWith(parts: seq<string>, sep: char): (s: string)
    decreases |parts|
  {
    if parts == [] then ""
    else if |parts| == 1 then parts[0]
    else parts[0] + [sep] + JoinWith(parts[1..], sep)
  }

  /** Splitting loses nothing: joining the pieces gives back the text. */
  lemma {:induction false} JoinSplit(s: string, sep: char)
    ensures JoinWith(Split(s, sep), sep) == s
    decreases |s|
  {
    if s != [] {
      JoinSplit(s[1..], sep);
      var rest := Split(s[1..], sep);
      if s[0] == sep {
        assert ([""] + rest)[1..] == rest;
        assert s == [sep] + s[1..];
      } else {
        var parts := [[s[0]] + rest[0]] + rest[1..];
        if |rest| == 1 {
          assert s == [s[0]] + s[1..];
        } else {
          assert parts[1..] == rest[1..];
          assert JoinWith(rest, sep) == rest[0] + [sep] + JoinWith(rest[1..], sep);
          assert s == [s[0]] + s[1..];
        }
      }
    }
  }

  /** A text without sep is a single piece. */
  lemma {:induction false} SplitPlain(s: string, sep: char)
    requires sep !in s
    ensures Split(s, sep) == [s]
    decreases |s|
  {
    if s != [] {
      SplitPlain(s[1..], sep);
      assert s == [s[0]] + s[1..];
    }
  }

  /** A sep-free head followed by sep splits off as the first piece. */
  lemma {:induction false} SplitHead(a: string, b: string, sep: char)
    requires sep !in a
    ensures Split(a + [sep] + b, sep) == [a] + Split(b, sep)
    decreases |a|
  {
    var s := a + [sep] + b;
    if a == [] {
      assert s == [sep] + b;
      assert s[1..] == b;
    } else {
      assert s[0] == a[0];
      assert s[1..] == a[1..] + [sep] + b;
      SplitHead(a[1..], b, sep);
      assert a == [a[0]] + a[1..];
    }
  }

  /** Joining sep-free pieces and splitting again gives back the pieces. */
  lemma {:induction false} SplitJoin(parts: seq<string>, sep: char)
    requires |parts| >= 1
    requires forall i :: 0 <= i < |parts| ==> sep !in parts[i]
    ensures Split(JoinWith(parts, sep), sep) == parts
    decreases |parts|
  {
    if |parts| == 1 {
      SplitPlain(parts[0], sep);
    } else {
      SplitJoin(parts[1..], sep);
      SplitHead(parts[0], JoinWith(parts[1..], sep), sep);
      assert parts == [parts[0]] + parts[1..];
    }
  }

  /** A text splits into one piece exactly when sep does not occur in it. */
  lemma SplitSingle(s: string, sep: char)
    ensures |Split(s, sep)| == 1 <==> sep !in s
  {
  }

  // ---------------------------------------------------------------------
  // One `key=value` pair

  /** `let mut split = pair.split('='); (split.next(), split.next())`: the
      first two pieces, present only when the pair holds an '='. */
  function Field(pair: string): (r: Option<(string, string)>)
    ensures r.None? <==> '=' !in pair
    ensures r.Some? ==> '=' !in r.value.0 && '=' !in r.value.1
  {
    SplitSingle(pair, '=');
    var pieces := Split(pair, '=');
    if |pieces| >= 2 then Some((pieces[0], pieces[1])) else None
  }

  /** A pair without '=' yields no field. */
  lemma FieldAbsent(pair: string)
    ensures Field(pair).None? <==> '=' !in pair
  {
    SplitSingle(pair, '=');
  }

  /** The key is the text before the first '=', the value the text between
      the first '=' and the second '=' (or the end). */
  lemma FieldShape(pair: string)
    requires Field(pair).Some?
    ensures var (k, v) := Field(pair).value;
      && '=' !in k && '=' !in v
      && |k| + 1 + |v| <= |pair|
      && pair[..|k|] == k
      && pair[|k|] == '='
      && pair[|k| + 1 .. |k| + 1 + |v|] == v
      && (|k| + 1 + |v| == |pair| || pair[|k| + 1 + |v|] == '=')
  {
    var pieces := Split(pair, '=');
    var k, v := pieces[0], pieces[1];
    JoinSplit(pair, '=');
    var tail := JoinWith(pieces[1..], '=');
    assert pair == k + ['='] + tail;
    if |pieces| == 2 {
      assert tail == v;
    } else {
      assert pieces[1..][1..] == pieces[2..];
      assert tail == v + ['='] + JoinWith(pieces[2..], '=');
    }
  }

  /** The pair holds a field with this key. */
  predicate HasKey(pair: string, key: string)
  {
    Field(pair).Some? && Field(pair).value.0 == key
  }

  /** The value the loop keeps for key after reading pairs: that of the
      last pair with this key. */
  function LastValue(pairs: seq<string>, key: string): (r: Option<string>)
    ensures r.Some? ==> exists i :: 0 <= i < |pairs| && HasKey(pairs[i], key) && Field(pairs[i]).value.1 == r.value
    decreases |pairs|
  {
    if pairs == [] then None
    else if HasKey(pairs[|pairs| - 1], key) then Some(Field(pairs[|pairs| - 1]).value.1)
    else
      var init := pairs[..|pairs| - 1];
      assert forall i :: 0 <= i < |init| ==> init[i] == pairs[i];
      LastValue(init, key)
  }

  /** No value is kept exactly when no pair carries the key. */
  lemma {:induction false} LastValueNone(pairs: seq<string>, key: string)
    ensures LastValue(pairs, key).None? <==> forall i :: 0 <= i < |pairs| ==> !HasKey(pairs[i], key)
    decreases |pairs|
  {
    if pairs != [] {
      var init := pairs[..|pairs| - 1];
      LastValueNone(init, key);
      assert forall i :: 0 <= i < |init| ==> init[i] == pairs[i];
    }
  }

  /** A later pair overwrites an earlier one: the value kept is that of the
      last pair carrying the key. */
  lemma {:induction false} LastValueIsLastOccurrence(pairs: seq<string>, key: string, i: nat)
    requires i < |pairs| && HasKey(pairs[i], key)
    requires forall j :: i < j < |pairs| ==> !HasKey(pairs[j], key)
    ensures LastValue(pairs, key) == Some(Field(pairs[i]).value.1)
    decreases |pairs|
  {
    if i < |pairs| - 1 {
      var init := pairs[..|pairs| - 1];
      assert forall j :: 0 <= j < |init| ==> init[j] == pairs[j];
      LastValueIsLastOccurrence(init, key, i);
    }
  }

  const PlayerKey: string := "playerId"
  const RoomKey: string := "roomId"

  /** The query loop of `ws_route` followed by the fallback to a generated
      player id (a fresh UUID in the source, a parameter here). */
  method ConnectionIds(query: string, generatedId: string) returns (playerId: string, roomId: Option<string>)
    ensures playerId == LastValue(Split(query, '&'), PlayerKey).GetOr(generatedId)
    ensures roomId == LastValue(Split(query, '&'), RoomKey)
  {
    var pairs := Split(query, '&');
    var player: Option<string> := None;
    roomId := None;
    for i := 0 to |pairs|
      invariant player == LastValue(pairs[..i], PlayerKey)
      invariant roomId == LastValue(pairs[..i], RoomKey)
    {
      assert pairs[..i + 1][..i] == pairs[..i];
      var pieces := Split(pairs[i], '=');
      if |pieces| >= 2 {
        var key, value := pieces[0], pieces[1];
        if key == PlayerKey {
          player := Some(value);
        } else if key == RoomKey {
          roomId := Some(value);
        }
      }
    }
    assert pairs[..|pairs|] == pairs;
    playerId := player.GetOr(generatedId);
  }
}
