/**
 * The parts of the bot's settings (bot/config.py) that carry logic: the
 * bounds the numeric fields and `send_as` must meet, and the validator that
 * turns a comma-separated text of user ids into a list.
 */
module BotConfig {
  import opened Common
  import opened Text

  /** The validated behaviour settings. */
  datatype Settings = Settings(pageSize: int, maxConcurrentDownloads: int, sendAs: string)

  /** A field whose constraint the value breaks. */
  datatype ConfigError = PageSizeOutOfRange | MaxConcurrentOutOfRange | SendAsNotAllowed

  const SendAsChoices: set<string> := {"document", "video"}

  /** Validation of the constrained fields: every broken constraint is reported, in declaration order. */
  function CheckSettings(pageSize: int, maxConcurrent: int, sendAs: string): (r: Result<Settings, seq<ConfigError>>)
    ensures r.Ok? <==> 1 <= pageSize <= 50 && 1 <= maxConcurrent <= 5 && sendAs in SendAsChoices
    ensures r.Ok? ==> r.value == Settings(pageSize, maxConcurrent, sendAs)
    ensures r.Err? ==>
      && (PageSizeOutOfRange in r.error <==> !(1 <= pageSize <= 50))
      && (MaxConcurrentOutOfRange in r.error <==> !(1 <= maxConcurrent <= 5))
      && (SendAsNotAllowed in r.error <==> sendAs !in SendAsChoices)
  {
    var errors :=
      (if 1 <= pageSize <= 50 then [] else [PageSizeOutOfRange])
      + (if 1 <= maxConcurrent <= 5 then [] else [MaxConcurrentOutOfRange])
      + (if sendAs in SendAsChoices then [] else [SendAsNotAllowed]);
    if errors == [] then Ok(Settings(pageSize, maxConcurrent, sendAs)) else Err(errors)
  }

  /** The defaults (10 per page, 2 downloads, send as document) are valid. */
  lemma DefaultsValid()
    ensures CheckSettings(10, 2, "document") == Ok(Settings(10, 2, "document"))
  {
  }

  // ---------------------------------------------------------------------------
  // allowed_user_ids

  /** What the validator receives: text from the environment, or an already-built list. */
  datatype RawUserIds = RawText(text: string) | RawList(ids: seq<int>)

  /** Each piece stripped of surrounding whitespace, position by position. */
  function StripAll(pieces: seq<string>): (ts: seq<string>)
    ensures |ts| == |pieces|
    ensures forall i :: 0 <= i < |pieces| ==> ts[i] == Strip(pieces[i], Whitespace)
  {
    seq(|pieces|, i requires 0 <= i < |pieces| => Strip(pieces[i], Whitespace))
  }

  /** The `if uid.strip()` filter: the non-empty texts, in order. */
  function DropBlank(ts: seq<string>): (r: seq<string>)
    ensures |r| <= |ts|
    ensures forall i :: 0 <= i < |r| ==> r[i] != ""
    decreases |ts|
  {
    if ts == [] then []
    else
      var rest := DropBlank(ts[1..]);
      if ts[0] == "" then rest else [ts[0]] + rest
  }

  /** The non-blank pieces of a split, stripped, in order. */
  function NonBlank(pieces: seq<string>): (r: seq<string>)
    ensures |r| <= |pieces|
    ensures forall i :: 0 <= i < |r| ==> r[i] != ""
    ensures forall i :: 0 <= i < |r| ==> exists j :: 0 <= j < |pieces| && r[i] == Strip(pieces[j], Whitespace)
    ensures forall j :: 0 <= j < |pieces| && Strip(pieces[j], Whitespace) != "" ==> Strip(pieces[j], Whitespace) in r
  {
    var ts := StripAll(pieces);
    DropBlankMembers(ts);
    DropBlank(ts)
  }

  /** Every kept text is one of the texts, and every non-empty text is kept. */
  lemma DropBlankMembers(ts: seq<string>)
    ensures forall i :: 0 <= i < |DropBlank(ts)| ==> exists j :: 0 <= j < |ts| && DropBlank(ts)[i] == ts[j]
    ensures forall j :: 0 <= j < |ts| && ts[j] != "" ==> ts[j] in DropBlank(ts)
  {
    var r := DropBlank(ts);
    DropBlankInOrder(ts);
    forall i | 0 <= i < |r|
      ensures exists j :: 0 <= j < |ts| && r[i] == ts[j]
    {
      assert r[i] == ts[Kept(ts)[i]];
    }
    forall j | 0 <= j < |ts| && ts[j] != ""
      ensures ts[j] in r
    {
      var i :| 0 <= i < |Kept(ts)| && Kept(ts)[i] == j;
      assert r[i] == ts[j];
    }
  }

  /** The positions of the texts `DropBlank` keeps, in order. */
  ghost function Kept(ts: seq<string>): (idx: seq<nat>)
    decreases |ts|
  {
    if ts == [] then []
    else
      var rest := Shift(Kept(ts[1..]));
      if ts[0] == "" then rest else [0] + rest
  }

  /** Every position one further on. */
  ghost function Shift(idx: seq<nat>): (r: seq<nat>)
    ensures |r| == |idx| && forall i :: 0 <= i < |idx| ==> r[i] == idx[i] + 1
  {
    seq(|idx|, i requires 0 <= i < |idx| => idx[i] + 1)
  }

  lemma ShiftIn(idx: seq<nat>, j: nat)
    requires j >= 1
    ensures j in Shift(idx) <==> j - 1 in idx
  {
    if j - 1 in idx {
      var i :| 0 <= i < |idx| && idx[i] == j - 1;
      assert Shift(idx)[i] == j;
    }
  }

  /** The kept positions are positions of `ts`, in increasing order. */
  lemma {:induction false} KeptIncreasing(ts: seq<string>)
    ensures forall i :: 0 <= i < |Kept(ts)| ==> Kept(ts)[i] < |ts|
    ensures forall i, k :: 0 <= i < k < |Kept(ts)| ==> Kept(ts)[i] < Kept(ts)[k]
    decreases |ts|
  {
    if ts != [] {
      KeptIncreasing(ts[1..]);
      var rest := Kept(ts[1..]);
      var shifted := Shift(rest);
      forall i, k | 0 <= i < k < |shifted|
        ensures shifted[i] < shifted[k]
      {
        assert shifted[i] == rest[i] + 1 && shifted[k] == rest[k] + 1;
      }
      if ts[0] != "" {
        var idx := [0] + shifted;
        assert Kept(ts) == idx;
        forall i, k | 0 <= i < k < |idx|
          ensures idx[i] < idx[k]
        {
          assert idx[k] == shifted[k - 1] && shifted[k - 1] > 0;
          if i > 0 {
            assert idx[i] == shifted[i - 1];
          }
        }
      } else {
        assert Kept(ts) == shifted;
      }
    }
  }

  /** `DropBlank` keeps exactly the non-empty texts, at increasing positions. */
  lemma {:induction false} DropBlankInOrder(ts: seq<string>)
    ensures var r, idx := DropBlank(ts), Kept(ts);
      && |idx| == |r|
      && (forall i :: 0 <= i < |idx| ==> idx[i] < |ts| && r[i] == ts[idx[i]])
      && (forall i, k :: 0 <= i < k < |idx| ==> idx[i] < idx[k])
      && (forall j :: 0 <= j < |ts| && j !in idx ==> ts[j] == "")
    decreases |ts|
  {
    KeptIncreasing(ts);
    if ts != [] {
      var tail := ts[1..];
      DropBlankInOrder(tail);
      KeptPicks(ts);
      forall j | 0 <= j < |ts| && j !in Kept(ts)
        ensures ts[j] == ""
      {
        KeptCovers(ts, j);
      }
    }
  }

  /** One step of `DropBlankInOrder`: the kept positions pick out the result. */
  lemma KeptPicks(ts: seq<string>)
    requires ts != []
    requires var r', idx' := DropBlank(ts[1..]), Kept(ts[1..]);
      |idx'| == |r'| && forall i :: 0 <= i < |idx'| ==> idx'[i] < |ts| - 1 && r'[i] == ts[1..][idx'[i]]
    ensures var r, idx := DropBlank(ts), Kept(ts);
      |idx| == |r| && forall i :: 0 <= i < |idx| ==> idx[i] < |ts| && r[i] == ts[idx[i]]
  {
    var tail := ts[1..];
    var rest, r' := Kept(tail), DropBlank(tail);
    var idx, r := Kept(ts), DropBlank(ts);
    if ts[0] == "" {
      forall i | 0 <= i < |idx|
        ensures idx[i] < |ts| && r[i] == ts[idx[i]]
      {
        assert ts[idx[i]] == tail[rest[i]];
      }
    } else {
      forall i | 0 <= i < |idx|
        ensures idx[i] < |ts| && r[i] == ts[idx[i]]
      {
        if i > 0 {
          assert idx[i] == rest[i - 1] + 1 && r[i] == r'[i - 1];
          assert ts[idx[i]] == tail[rest[i - 1]];
        }
      }
    }
  }

  /** One step of `DropBlankInOrder`: a position left out holds "". */
  lemma KeptCovers(ts: seq<string>, j: nat)
    requires ts != [] && j < |ts| && j !in Kept(ts)
    requires forall j' :: 0 <= j' < |ts| - 1 && j' !in Kept(ts[1..]) ==> ts[1..][j'] == ""
    ensures ts[j] == ""
  {
    var rest := Kept(ts[1..]);
    if j > 0 {
      ShiftIn(rest, j);
      assert j in Shift(rest) ==> j in Kept(ts);
      assert ts[j] == ts[1..][j - 1];
    }
  }

  /**
   * `NonBlank` keeps exactly the pieces whose strip is not blank, stripped, in
   * their order: its i-th element is the strip of the piece at the i-th kept
   * position, the positions increase, and every piece left out strips to "".
   */
  lemma NonBlankInOrder(pieces: seq<string>)
    ensures var r, idx := NonBlank(pieces), Kept(StripAll(pieces));
      && |idx| == |r|
      && (forall i :: 0 <= i < |idx| ==> idx[i] < |pieces| && r[i] == Strip(pieces[idx[i]], Whitespace))
      && (forall i, k :: 0 <= i < k < |idx| ==> idx[i] < idx[k])
      && (forall j :: 0 <= j < |pieces| && j !in idx ==> Strip(pieces[j], Whitespace) == "")
  {
    DropBlankInOrder(StripAll(pieces));
  }

  /** `int()` of each piece in order; the first piece that is not a number is the error. */
  function ParseAll(pieces: seq<string>): (r: Result<seq<int>, string>)
    ensures r.Ok? ==> |r.value| == |pieces| && forall i :: 0 <= i < |pieces| ==> ParseInt(pieces[i]) == Some(r.value[i])
    ensures r.Err? ==> r.error in pieces && ParseInt(r.error).None?
    decreases |pieces|
  {
    if pieces == [] then Ok([])
    else
      match ParseInt(pieces[0])
      case None => Err(pieces[0])
      case Some(v) =>
        match ParseAll(pieces[1..])
        case Ok(rest) => Ok([v] + rest)
        case Err(e) => Err(e)
  }

  /**
   * `parse_user_ids`: text is split on ',', each piece stripped, blank pieces
   * skipped, the rest parsed; a list passes unchanged. On success the ids are
   * the numbers of the non-blank pieces, in order; a failure names a non-blank
   * piece that is not a number.
   */
  function ParseUserIds(raw: RawUserIds): (r: Result<seq<int>, string>)
    ensures raw.RawList? ==> r == Ok(raw.ids)
    ensures raw.RawText? && r.Ok? ==>
      && |r.value| == |NonBlank(Split(raw.text, ','))|
      && forall i :: 0 <= i < |r.value| ==> ParseInt(NonBlank(Split(raw.text, ','))[i]) == Some(r.value[i])
    ensures raw.RawText? && r.Err? ==>
      r.error != "" && ParseInt(r.error).None? && r.error in NonBlank(Split(raw.text, ','))
  {
    match raw
    case RawText(s) => ParseAll(NonBlank(Split(s, ',')))
    case RawList(ids) => Ok(ids)
  }

  /** The ids rendered in decimal. */
  function Rendered(ids: seq<int>): (r: seq<string>)
    ensures |r| == |ids|
    ensures forall i :: 0 <= i < |ids| ==> r[i] == IntToString(ids[i])
  {
    if ids == [] then [] else [IntToString(ids[0])] + Rendered(ids[1..])
  }

  /** A decimal rendering has no ',' and no surrounding whitespace. */
  lemma RenderedIsBare(i: int)
    ensures Bare(IntToString(i)) && ',' !in IntToString(i)
  {
    var s := IntToString(i);
    var d := if i < 0 then NatToString(-i) else NatToString(i);
    assert forall k :: 0 <= k < |d| ==> IsDigit(d[k]);
    assert s[|s| - 1] == d[|d| - 1];
  }

  /** A non-empty piece without ',' whose ends are not whitespace: splitting and stripping leave it as it is. */
  predicate Bare(p: string)
  {
    p != "" && ',' !in p && p[0] !in Whitespace && p[|p| - 1] !in Whitespace
  }

  lemma RenderedAreBare(ids: seq<int>)
    ensures forall i :: 0 <= i < |ids| ==> Bare(Rendered(ids)[i])
    ensures forall i :: 0 <= i < |ids| ==> ',' !in Rendered(ids)[i]
  {
    forall i | 0 <= i < |ids|
      ensures Bare(Rendered(ids)[i]) && ',' !in Rendered(ids)[i]
    {
      RenderedIsBare(ids[i]);
    }
  }

  /** Pieces that are already stripped and non-blank pass through unchanged. */
  lemma NonBlankOfBare(parts: seq<string>)
    requires forall i :: 0 <= i < |parts| ==> Bare(parts[i])
    ensures NonBlank(parts) == parts
  {
    forall i | 0 <= i < |parts|
      ensures StripAll(parts)[i] == parts[i]
    {
      StripTrimmed(parts[i], Whitespace);
    }
    assert StripAll(parts) == parts;
    DropBlankOfNonEmpty(parts);
    assert NonBlank(parts) == DropBlank(StripAll(parts));
  }

  /** Without empty texts, nothing is dropped. */
  lemma {:induction false} DropBlankOfNonEmpty(ts: seq<string>)
    requires forall i :: 0 <= i < |ts| ==> ts[i] != ""
    ensures DropBlank(ts) == ts
    decreases |ts|
  {
    if ts != [] {
      DropBlankOfNonEmpty(ts[1..]);
    }
  }

  lemma {:induction false} ParseAllOfRendered(ids: seq<int>)
    ensures ParseAll(Rendered(ids)) == Ok(ids)
    decreases |ids|
  {
    if ids != [] {
      ParseIntToString(ids[0]);
      ParseAllOfRendered(ids[1..]);
      assert Rendered(ids)[1..] == Rendered(ids[1..]);
      assert [ids[0]] + ids[1..] == ids;
    }
  }

  /** Writing a list of ids as comma-separated decimals and parsing it back gives the same list. */
  lemma ParseUserIdsRoundTrip(ids: seq<int>)
    ensures ParseUserIds(RawText(Join(Rendered(ids), ","))) == Ok(ids)
  {
    if ids == [] {
      EmptyTextGivesNoIds();
    } else {
      RenderedAreBare(ids);
      ParseAllOfRendered(ids);
      BareRoundTrip(Rendered(ids), ids);
    }
  }

  /** Joining bare pieces with ',' and parsing the text gives what parsing the pieces gives. */
  lemma BareRoundTrip(parts: seq<string>, ids: seq<int>)
    requires |parts| >= 1
    requires forall i :: 0 <= i < |parts| ==> Bare(parts[i])
    requires forall i :: 0 <= i < |parts| ==> ',' !in parts[i]
    requires ParseAll(parts) == Ok(ids)
    ensures ParseUserIds(RawText(Join(parts, ","))) == Ok(ids)
  {
    SplitJoin(parts, ',');
    NonBlankOfBare(parts);
  }

  /** An empty text gives an empty list. */
  lemma EmptyTextGivesNoIds()
    ensures ParseUserIds(RawText("")) == Ok([])
  {
    assert Split("", ',') == [""];
    assert Strip("", Whitespace) == "";
    assert NonBlank([""]) == [];
  }

  /** Blank pieces, such as a trailing comma leaves, are skipped. */
  lemma TrailingCommaIgnored(s: string)
    ensures ParseUserIds(RawText(s + ",")) == ParseUserIds(RawText(s))
  {
    JoinSplit(s, ',');
    var pieces := Split(s, ',');
    assert s + "," == Join(pieces + [""], [',']) by {
      JoinAppendEmpty(pieces, ',');
    }
    forall i | 0 <= i < |pieces + [""]|
      ensures ',' !in (pieces + [""])[i]
    {
      if i < |pieces| {
        assert (pieces + [""])[i] == pieces[i];
      }
    }
    SplitJoin(pieces + [""], ',');
    NonBlankAppendBlank(pieces);
  }

  lemma {:induction false} JoinAppendEmpty(parts: seq<string>, c: char)
    requires |parts| >= 1
    ensures Join(parts + [""], [c]) == Join(parts, [c]) + [c]
    decreases |parts|
  {
    if |parts| == 1 {
      assert (parts + [""])[1..] == [""];
    } else {
      JoinAppendEmpty(parts[1..], c);
      assert (parts + [""])[1..] == parts[1..] + [""];
    }
  }

  lemma NonBlankAppendBlank(pieces: seq<string>)
    ensures NonBlank(pieces + [""]) == NonBlank(pieces)
  {
    var ts, head := StripAll(pieces + [""]), StripAll(pieces);
    assert ts == head + [""] by {
      assert Strip("", Whitespace) == "";
      forall i | 0 <= i < |pieces|
        ensures ts[i] == head[i]
      {
        assert (pieces + [""])[i] == pieces[i];
      }
    }
    DropBlankAppendBlank(head);
  }

  lemma {:induction false} DropBlankAppendBlank(ts: seq<string>)
    ensures DropBlank(ts + [""]) == DropBlank(ts)
    decreases |ts|
  {
    if ts == [] {
      assert ([""])[1..] == [];
    } else {
      DropBlankAppendBlank(ts[1..]);
      assert (ts + [""])[1..] == ts[1..] + [""];
    }
  }
}
