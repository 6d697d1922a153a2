/**
 * Start-up configuration shared by both bots: the bot token must be set, and
 * `ALLOWED_USER_IDS` is a comma-separated list of user ids.  Each entry is
 * stripped of whitespace, blank entries are skipped and the rest are read with
 * `int()`; the first entry `int()` refuses raises `ValueError` and start-up fails.
 * An environment variable is an `Option<string>` (`None` when unset).
 */
module AllowList {
  import opened Wrappers
  import Strings
  import Numerals

  /** An entry that takes part in the list: non-blank once stripped. */
  predicate Listed(entry: string)
  {
    Strings.Strip(entry) != []
  }

  /** An entry that `int()` accepts or that is skipped as blank. */
  predicate Accepted(entry: string)
  {
    Listed(entry) ==> Numerals.ParseInt(Strings.Strip(entry)).Some?
  }

  /** A non-blank entry that reads as the user id `u`. */
  predicate Names(entry: string, u: int)
  {
    Listed(entry) && Numerals.ParseInt(Strings.Strip(entry)) == Some(u)
  }

  /** The set comprehension `{int(uid.strip()) for uid in entries if uid.strip()}`,
      evaluated left to right: the first entry `int()` refuses is the error. */
  function ParseEntries(entries: seq<string>): Result<set<int>, string>
  {
    if entries == [] then Success({})
    else
      var entry := Strings.Strip(entries[0]);
      if entry == [] then ParseEntries(entries[1..])
      else
        match Numerals.ParseInt(entry)
        case None => Failure(entry)
        case Some(v) =>
          match ParseEntries(entries[1..])
          case Failure(e) => Failure(e)
          case Success(ids) => Success({v} + ids)
  }

  predicate AllAccepted(entries: seq<string>)
  {
    forall i :: 0 <= i < |entries| ==> Accepted(entries[i])
  }

  /** The comprehension succeeds exactly when every entry is accepted. */
  lemma {:induction false} ParseEntriesSucceeds(entries: seq<string>)
    ensures ParseEntries(entries).Success? <==> AllAccepted(entries)
  {
    if entries != [] {
      var tail := entries[1..];
      ParseEntriesSucceeds(tail);
      assert forall i :: 1 <= i < |entries| ==> entries[i] == tail[i - 1];
    }
  }

  /** Some entry of the list names the user id `u`. */
  predicate Mentions(entries: seq<string>, u: int)
  {
    exists i :: 0 <= i < |entries| && Names(entries[i], u)
  }

  lemma MentionsCons(entries: seq<string>, u: int)
    requires entries != []
    ensures Mentions(entries, u) <==> Names(entries[0], u) || Mentions(entries[1..], u)
  {
    var tail := entries[1..];
    if Mentions(entries, u) {
      var i :| 0 <= i < |entries| && Names(entries[i], u);
      if i > 0 {
        assert tail[i - 1] == entries[i];
      }
    }
    if Mentions(tail, u) {
      var i :| 0 <= i < |tail| && Names(tail[i], u);
      assert entries[i + 1] == tail[i];
    }
  }

  /** A successful comprehension holds exactly the ids its entries name. */
  lemma {:induction false} ParseEntriesMembers(entries: seq<string>, u: int)
    requires ParseEntries(entries).Success?
    ensures u in ParseEntries(entries).value <==> Mentions(entries, u)
  {
    if entries != [] {
      var tail := entries[1..];
      assert ParseEntries(tail).Success?;
      ParseEntriesMembers(tail, u);
      MentionsCons(entries, u);
    }
  }

  /** A failed comprehension reports a non-blank, stripped entry that `int()` refuses. */
  lemma {:induction false} ParseEntriesFailure(entries: seq<string>)
    requires ParseEntries(entries).Failure?
    ensures var e := ParseEntries(entries).error;
            exists i :: 0 <= i < |entries| && Listed(entries[i]) && e == Strings.Strip(entries[i]) && Numerals.ParseInt(e).None?
  {
    var tail := entries[1..];
    var e := ParseEntries(entries).error;
    var head := Strings.Strip(entries[0]);
    if head != [] && Numerals.ParseInt(head).None? {
      assert Listed(entries[0]);
    } else {
      assert ParseEntries(tail).Failure? && ParseEntries(tail).error == e;
      ParseEntriesFailure(tail);
      var i :| 0 <= i < |tail| && Listed(tail[i]) && e == Strings.Strip(tail[i]) && Numerals.ParseInt(e).None?;
      assert entries[i + 1] == tail[i];
    }
  }

  /** `allowed_ids.split(",")` only runs for a non-empty value; the empty value is the
      empty set directly. */
  function ParseAllowedUserIds(allowedIds: string): Result<set<int>, string>
  {
    if allowedIds == "" then Success({}) else ParseEntries(Strings.Split(allowedIds, ','))
  }

  datatype InitError = MissingToken | InvalidUserId(entry: string)

  /** The start-up checks of `bot_init` and of `PodcastHelperBot.__init__`: first the
      token (unset or empty is fatal), then the allow-list (`ALLOWED_USER_IDS` defaults to ""). */
  function LoadAllowedUserIds(token: Option<string>, allowedIds: Option<string>): (r: Result<set<int>, InitError>)
    ensures (token == None || token == Some("")) ==> r == Failure(MissingToken)
  {
    if token == None || token == Some("") then Failure(MissingToken)
    else
      var raw := if allowedIds.Some? then allowedIds.value else "";
      match ParseAllowedUserIds(raw)
      case Success(ids) => Success(ids)
      case Failure(e) => Failure(InvalidUserId(e))
  }

  /** An unset or empty `ALLOWED_USER_IDS` yields the empty set, which admits everyone. */
  lemma EmptyConfigAllowsAll(token: string, allowedIds: Option<string>)
    requires token != ""
    requires allowedIds == None || allowedIds == Some("")
    ensures LoadAllowedUserIds(Some(token), allowedIds) == Success({})
  {
  }

  /** With a token and a non-empty `ALLOWED_USER_IDS`, start-up succeeds exactly when
      every comma-separated entry is blank or an integer; the allow-list then holds
      exactly the ids the entries name, and otherwise the error names a stripped
      entry that `int()` refuses. */
  lemma LoadedIds(token: string, allowedIds: string, u: int)
    requires token != "" && allowedIds != ""
    ensures LoadAllowedUserIds(Some(token), Some(allowedIds)).Success? <==> AllAccepted(Strings.Split(allowedIds, ','))
    ensures LoadAllowedUserIds(Some(token), Some(allowedIds)).Success? ==>
              (u in LoadAllowedUserIds(Some(token), Some(allowedIds)).value <==> Mentions(Strings.Split(allowedIds, ','), u))
    ensures LoadAllowedUserIds(Some(token), Some(allowedIds)).Failure? ==>
              Refused(Strings.Split(allowedIds, ','), LoadAllowedUserIds(Some(token), Some(allowedIds)).error)
  {
    var entries := Strings.Split(allowedIds, ',');
    ParseEntriesSucceeds(entries);
    if ParseEntries(entries).Success? {
      ParseEntriesMembers(entries, u);
    } else {
      ParseEntriesFailure(entries);
      assert LoadAllowedUserIds(Some(token), Some(allowedIds)) == Failure(InvalidUserId(ParseEntries(entries).error));
    }
  }

  /** The start-up error names a non-blank entry, stripped, that `int()` refuses. */
  predicate Refused(entries: seq<string>, error: InitError)
  {
    error.InvalidUserId? &&
    exists i :: 0 <= i < |entries| && Listed(entries[i]) && error.entry == Strings.Strip(entries[i])
                && Numerals.ParseInt(error.entry).None?
  }

  /** A string that neither starts nor ends with whitespace is its own `strip()`. */
  lemma StripUnpadded(t: string)
    requires t != [] && !Strings.IsSpace(t[0]) && !Strings.IsSpace(t[|t| - 1])
    ensures Strings.Strip(t) == t
  {
    assert Strings.TrimStart(t) == t;
  }

  /** A printed integer is not blank and is its own `strip()`. */
  lemma StripNumeral(n: int)
    ensures var t := Numerals.IntToString(n);
            && Strings.Strip(t) == t && Strings.Strip(" " + t) == t && ',' !in t
  {
    var t := Numerals.IntToString(n);
    Numerals.IntToStringChars(n);
    assert !Strings.IsSpace(t[0]) && !Strings.IsSpace(t[|t| - 1]);
    StripUnpadded(t);
    var p := " " + t;
    assert Strings.IsSpace(p[0]) && p[1..] == t;
    assert Strings.TrimStart(p) == Strings.TrimStart(t);
  }

  lemma SplitIdsHead(x: string, y: string, z: string)
    requires ',' !in x
    ensures Strings.Split(x + ", " + y + ",," + z, ',') == [x] + Strings.Split(" " + y + ",," + z, ',')
  {
    var r1 := " " + y + ",," + z;
    assert x + ", " + y + ",," + z == x + [','] + r1;
    Strings.SplitFirst(x, r1, ',');
  }
  lemma SplitIdsMiddle(y: string, z: string)
    requires ',' !in y
    ensures Strings.Split(" " + y + ",," + z, ',') == [" " + y] + Strings.Split("," + z, ',')
  {
    var p := " " + y;
    assert ',' !in p;
    assert " " + y + ",," + z == p + [','] + ("," + z);
    Strings.SplitFirst(p, "," + z, ',');
  }
  lemma SplitIdsTail(z: string)
    ensures Strings.Split("," + z, ',') == [""] + Strings.Split(z, ',')
  {
    var e: string := [];
    assert "," + z == e + [','] + z;
    Strings.SplitFirst(e, z, ',');
  }

  /** The entries of `"A, B,,C"`. */
  lemma SplitIds(x: string, y: string, z: string)
    requires ',' !in x && ',' !in y && ',' !in z
    ensures Strings.Split(x + ", " + y + ",," + z, ',') == [x, " " + y, "", z]
  {
    SplitIdsHead(x, y, z);
    SplitIdsMiddle(y, z);
    SplitIdsTail(z);
  }

  /** A blank entry is skipped. */
  lemma ParseEntriesBlank(entry: string, rest: seq<string>)
    requires !Listed(entry)
    ensures ParseEntries([entry] + rest) == ParseEntries(rest)
  {
    assert ([entry] + rest)[1..] == rest;
  }

  /** A non-blank entry that `int()` reads as `v` adds `v` to the ids of the rest. */
  lemma ParseEntriesNumber(entry: string, rest: seq<string>, v: int)
    requires Names(entry, v) && ParseEntries(rest).Success?
    ensures ParseEntries([entry] + rest) == Success({v} + ParseEntries(rest).value)
  {
    assert ([entry] + rest)[1..] == rest;
  }

  /** A non-blank entry that `int()` refuses is the error, whatever follows it. */
  lemma ParseEntriesRefused(entry: string, rest: seq<string>)
    requires Listed(entry) && Numerals.ParseInt(Strings.Strip(entry)).None?
    ensures ParseEntries([entry] + rest) == Failure(Strings.Strip(entry))
  {
  }

  /** After a non-blank entry that `int()` accepts, a failure of the rest is the failure. */
  lemma ParseEntriesFailureAfter(entry: string, rest: seq<string>, v: int)
    requires Names(entry, v) && ParseEntries(rest).Failure?
    ensures ParseEntries([entry] + rest) == ParseEntries(rest)
  {
    assert ([entry] + rest)[1..] == rest;
  }

  /** A numeral: its own `strip()`, and `strip()` of it behind a space, free of commas. */
  predicate Numeral(t: string, v: int)
  {
    t != [] && Strings.Strip(t) == t && Strings.Strip(" " + t) == t && ',' !in t
    && Numerals.ParseInt(t) == Some(v)
  }

  lemma EntriesTailRead(y: string, z: string, b: int, c: int)
    requires Numeral(y, b) && Numeral(z, c)
    ensures ParseEntries([" " + y, "", z]) == Success({b, c})
  {
    var r3: seq<string> := [];
    var r2 := [z] + r3;
    var r1 := [""] + r2;
    assert ParseEntries(r3) == Success({});
    ParseEntriesNumber(z, r3, c);
    assert {c} + {} == {c};
    assert Strings.Strip("") == "";
    ParseEntriesBlank("", r2);
    assert ParseEntries(r1) == Success({c});
    assert Names(" " + y, b);
    ParseEntriesNumber(" " + y, r1, b);
    assert {b} + {c} == {b, c};
    assert [" " + y] + r1 == [" " + y, "", z];
  }

  lemma EntriesRead(x: string, y: string, z: string, a: int, b: int, c: int)
    requires Numeral(x, a) && Numeral(y, b) && Numeral(z, c)
    ensures ParseEntries([x, " " + y, "", z]) == Success({a, b, c})
  {
    var rest := [" " + y, "", z];
    EntriesTailRead(y, z, b, c);
    ParseEntriesNumber(x, rest, a);
    var all := [x] + rest;
    assert all == [x, " " + y, "", z];
    assert ParseEntries(all) == Success({a} + {b, c});
    assert {a} + {b, c} == {a, b, c};
  }

  lemma ReadsIds(x: string, y: string, z: string, a: int, b: int, c: int)
    requires Numeral(x, a) && Numeral(y, b) && Numeral(z, c)
    ensures ParseAllowedUserIds(x + ", " + y + ",," + z) == Success({a, b, c})
  {
    SplitIds(x, y, z);
    assert x + ", " + y + ",," + z != "";
    EntriesRead(x, y, z, a, b, c);
  }

  lemma IsNumeral(n: int)
    ensures Numeral(Numerals.IntToString(n), n)
  {
    StripNumeral(n);
    Numerals.ParseIntRoundTrip(n);
  }

  /** Entries are stripped and blank ones skipped: `"A, B,,C"` reads as {A, B, C}
      (for instance `"1, 2,,3"` as {1, 2, 3}). */
  lemma StrippedAndSkipped(a: int, b: int, c: int)
    ensures ParseAllowedUserIds(Numerals.IntToString(a) + ", " + Numerals.IntToString(b) + ",," + Numerals.IntToString(c))
            == Success({a, b, c})
  {
    IsNumeral(a);
    IsNumeral(b);
    IsNumeral(c);
    ReadsIds(Numerals.IntToString(a), Numerals.IntToString(b), Numerals.IntToString(c), a, b, c);
  }

  lemma SplitWord(x: string)
    requires ',' !in x
    ensures Strings.Split(x + ",abc", ',') == [x, "abc"]
  {
    var w := "abc";
    assert ",abc" == [','] + w;
    Strings.AppendAssoc(x, [','], w);
    assert ',' !in w by {
      assert w[0] != ',' && w[1] != ',' && w[2] != ',';
    }
    Strings.SplitExtend(x, w, ',');
    assert Strings.Split(x, ',') == [x];
  }

  lemma WordRefused()
    ensures Listed("abc") && Strings.Strip("abc") == "abc" && Numerals.ParseInt("abc").None?
  {
    StripUnpadded("abc");
    assert !Numerals.IsDigit('a');
  }

  lemma RefusesWord(x: string, a: int)
    requires Numeral(x, a)
    ensures ParseAllowedUserIds(x + ",abc") == Failure("abc")
  {
    SplitWord(x);
    WordRefused();
    var empty: seq<string> := [];
    ParseEntriesRefused("abc", empty);
    assert ["abc"] + empty == ["abc"];
    ParseEntriesFailureAfter(x, ["abc"], a);
    assert [x] + ["abc"] == [x, "abc"];
  }

  /** An entry that is not an integer makes start-up fail, naming that entry. */
  lemma NonIntegerFails(a: int)
    ensures LoadAllowedUserIds(Some("token"), Some(Numerals.IntToString(a) + ",abc")) == Failure(InvalidUserId("abc"))
  {
    IsNumeral(a);
    RefusesWord(Numerals.IntToString(a), a);
  }
}
