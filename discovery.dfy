/**
 * GetVssForVolume (Helpers.cs): reading the report of
 * "vssadmin list shadows /for=X:" into VssInfo records.
 *
 * The report is scanned for the matches of
 *   shadow copies at (creation time: .+?)Provider      (single-line mode)
 * and each captured group is searched for five "label (.+)" fields. Both
 * regular expressions are written out here as the searches they perform.
 */
module Discovery {
  import opened Wrappers
  import opened Text
  import opened Clock
  import opened Snapshot

  const Lead: string := "shadow copies at "
  const CreationLabel: string := "creation time: "
  /** The literal text a block match starts with. */
  const BlockHead: string := Lead + CreationLabel
  /** The literal text a block match ends with. */
  const ProviderMark: string := "Provider"

  const IdLabel: string := "Shadow Copy ID: "
  const VolumeLabel: string := "Shadow Copy Volume: "
  const OriginLabel: string := "Originating Machine: "
  const ServiceLabel: string := "Service Machine: "

  /** Match.Groups.Count for the block pattern: the whole match and group 1. */
  const GroupCount: nat := 2

  /** A block match: where it starts, and where its closing "Provider" starts. */
  datatype Block = Block(start: nat, close: nat)

  /**
   * The block pattern matches at `i` closing at `j`: the head is at `i`, the
   * lazy ".+?" takes at least one character, and "Provider" at `j` is the
   * first one after that.
   */
  predicate BlockAt(s: string, i: int, j: int) {
    OccursAt(s, i, BlockHead) && i + |BlockHead| < j && OccursAt(s, j, ProviderMark)
    && forall k :: i + |BlockHead| < k < j ==> !OccursAt(s, k, ProviderMark)
  }

  /** Regex.Match / Match.NextMatch: the leftmost block match at or after `from`. */
  function FindBlock(s: string, from: nat): (r: Option<Block>)
    ensures r.Some? ==> from <= r.value.start && BlockAt(s, r.value.start, r.value.close)
    ensures r.Some? ==> forall i, j :: from <= i < r.value.start ==> !BlockAt(s, i, j)
    ensures r.None? ==> forall i, j :: from <= i ==> !BlockAt(s, i, j)
    decreases |s| - from
  {
    if from + |BlockHead| > |s| then None
    else
      var close := IndexOfFrom(s, ProviderMark, from + |BlockHead| + 1);
      if OccursAt(s, from, BlockHead) && close >= 0 then Some(Block(from, close))
      else FindBlock(s, from + 1)
  }

  /** The leftmost match at `i` has one closing position: the first "Provider" after the head. */
  lemma BlockCloseUnique(s: string, i: int, j: int, j': int)
    requires BlockAt(s, i, j) && BlockAt(s, i, j')
    ensures j == j'
  {
  }

  /** Where the search for the next match resumes: just past "Provider". */
  function MatchEnd(s: string, b: Block): (e: nat)
    requires BlockAt(s, b.start, b.close)
    ensures b.start + 41 <= e <= |s|
  {
    assert |BlockHead| == 32 && |ProviderMark| == 8;
    b.close + |ProviderMark|
  }

  /** Group 1 of a match: from "creation time: " up to the closing "Provider". */
  function GroupText(s: string, b: Block): (g: string)
    requires BlockAt(s, b.start, b.close)
    ensures |g| > |CreationLabel| && g[..|CreationLabel|] == CreationLabel
    ensures forall k :: |CreationLabel| < k ==> !OccursAt(g, k, ProviderMark)
  {
    var g := s[b.start + |Lead| .. b.close];
    assert g[..|CreationLabel|] == s[b.start + |Lead| .. b.start + |BlockHead|];
    forall k | |CreationLabel| < k ensures !OccursAt(g, k, ProviderMark) {
      if OccursAt(g, k, ProviderMark) {
        OccursInSlice(s, b.start + |Lead|, b.close, k, ProviderMark);
        assert false;
      }
    }
    g
  }

  /** Match.Groups[i]: groups 0 and 1 succeed, any other index is a failed group. */
  function Group(s: string, b: Block, i: nat): (r: Option<string>)
    requires BlockAt(s, b.start, b.close)
    ensures r.Some? <==> i < GroupCount
  {
    if i == 0 then Some(s[b.start .. MatchEnd(s, b)])
    else if i == 1 then Some(GroupText(s, b))
    else None
  }

  /** The captured groups of all successive non-overlapping matches from `from` on. */
  function Blocks(s: string, from: nat): (gs: seq<string>)
    requires from <= |s|
    ensures 41 * |gs| <= |s| - from
    decreases |s| - from
  {
    match FindBlock(s, from)
    case None => []
    case Some(b) => [GroupText(s, b)] + Blocks(s, MatchEnd(s, b))
  }

  /**
   * Every block starts with "creation time: " and a value character, and
   * holds no "Provider" after that: the lazy group stops at the first one.
   */
  lemma {:induction false} BlocksShape(s: string, from: nat)
    requires from <= |s|
    ensures var gs := Blocks(s, from);
      forall n :: 0 <= n < |gs| ==>
        && |gs[n]| > |CreationLabel| && gs[n][..|CreationLabel|] == CreationLabel
        && forall k :: |CreationLabel| < k ==> !OccursAt(gs[n], k, ProviderMark)
    decreases |s| - from
  {
    match FindBlock(s, from)
    case None =>
    case Some(b) =>
      BlocksShape(s, MatchEnd(s, b));
      var gs := Blocks(s, from);
      forall n | 0 <= n < |gs|
        ensures |gs[n]| > |CreationLabel| && gs[n][..|CreationLabel|] == CreationLabel
        ensures forall k :: |CreationLabel| < k ==> !OccursAt(gs[n], k, ProviderMark)
      {
        if n > 0 { assert gs[n] == Blocks(s, MatchEnd(s, b))[n - 1]; }
      }
  }

  /** A report without the block head has no blocks. */
  lemma NoHeadNoBlocks(s: string)
    requires IndexOf(s, BlockHead) == -1
    ensures Blocks(s, 0) == []
  {
  }

  /**
   * The field pattern "label (.+)" can match at `i`: the label is there and is
   * followed by at least one character that is not a line feed.
   */
  predicate FieldAt(s: string, i: int, tag: string) {
    OccursAt(s, i, tag) && i + |tag| < |s| && s[i + |tag|] != '\n'
  }

  /** The leftmost position at or after `from` where the field pattern matches, or -1. */
  function FindField(s: string, tag: string, from: nat): (r: int)
    ensures -1 <= r
    ensures r >= 0 ==> from <= r && FieldAt(s, r, tag)
    ensures r >= 0 ==> forall i :: from <= i < r ==> !FieldAt(s, i, tag)
    ensures r == -1 ==> forall i :: from <= i ==> !FieldAt(s, i, tag)
    decreases |s| - from
  {
    if from + |tag| >= |s| then -1
    else if FieldAt(s, from, tag) then from
    else FindField(s, tag, from + 1)
  }

  /**
   * Regex.Match(s, label + "(.+)").Groups[1].Value.TrimEnd(): the rest of the
   * label's line without trailing white space, or "" when the label is absent.
   */
  function FieldValue(s: string, tag: string): (v: string)
    ensures forall i :: 0 <= i < |v| ==> v[i] != '\n'
    ensures v == [] || !IsWhiteSpace(v[|v| - 1])
    ensures (forall i :: !FieldAt(s, i, tag)) ==> v == []
  {
    var k := FindField(s, tag, 0);
    if k < 0 then ""
    else
      var p := k + |tag|;
      var line := s[p..LineEnd(s, p)];
      var v := TrimEnd(line);
      assert forall i :: 0 <= i < |v| ==> v[i] == line[i] == s[p + i];
      v
  }

  /**
   * The value of a field is what follows the first matching occurrence of its
   * label, up to the end of that line, with trailing white space removed.
   */
  lemma FieldIsRestOfLine(s: string, tag: string, k: nat, q: nat)
    requires FieldAt(s, k, tag)
    requires forall i :: 0 <= i < k ==> !FieldAt(s, i, tag)
    requires k + |tag| <= q <= |s| && (q == |s| || s[q] == '\n')
    requires forall i :: k + |tag| <= i < q ==> s[i] != '\n'
    ensures FieldValue(s, tag) == TrimEnd(s[k + |tag|..q])
  {
    var p := k + |tag|;
    assert FindField(s, tag, 0) == k;
    assert LineEnd(s, p) == q;
  }

  /** A record from one group: five fields, the creation time parsed, then the constructor. */
  function RecordOf(g: string, parseTime: string -> Option<UtcTime>): (r: Result<VssInfo, ParseError>)
    ensures var raw := FieldValue(g, CreationLabel);
      && (parseTime(raw).None? ==> r == Failure(BadCreationTime(raw)))
      && (r.Failure? && r.error.BadCreationTime? <==> parseTime(raw).None?)
    ensures var raw, volume := FieldValue(g, CreationLabel), FieldValue(g, VolumeLabel);
      parseTime(raw).Some? ==>
        && (r.Success? <==> VssNumberOf(volume).Success?)
        && (r.Failure? ==> r.error == VssNumberOf(volume).error)
    ensures var raw, volume := FieldValue(g, CreationLabel), FieldValue(g, VolumeLabel);
      r.Success? ==>
        && parseTime(raw).Some?
        && r.value == VssInfo(parseTime(raw).value, FieldValue(g, IdLabel), volume,
                              FieldValue(g, OriginLabel), FieldValue(g, ServiceLabel),
                              VssNumberOf(volume).value)
  {
    var createTimeRaw := FieldValue(g, CreationLabel);
    var shadowCopyId := FieldValue(g, IdLabel);
    var shadowCopyVolume := FieldValue(g, VolumeLabel);
    var originatingMachine := FieldValue(g, OriginLabel);
    var serviceMachine := FieldValue(g, ServiceLabel);
    match parseTime(createTimeRaw)
    case None => Failure(BadCreationTime(createTimeRaw))
    case Some(t) => NewVssInfo(t, shadowCopyId, shadowCopyVolume, originatingMachine, serviceMachine)
  }

  /** RecordOf with the time parser fixed, as the loop body applies it to each group. */
  function RecordReader(parseTime: string -> Option<UtcTime>): string -> Result<VssInfo, ParseError> {
    g => RecordOf(g, parseTime)
  }

  /**
   * What GetVssForVolume returns, or the exception it throws, for a report:
   * the groups' records in order, or the first group's failure.
   */
  function Discover(stdOut: string, parseTime: string -> Option<UtcTime>): (r: Result<seq<VssInfo>, ParseError>)
    ensures r.Success? ==> |r.value| == |Blocks(stdOut, 0)|
    ensures FindBlock(stdOut, 0).None? ==> r == Success([])
  {
    MapAll(Blocks(stdOut, 0), RecordReader(parseTime))
  }

  /**
   * The body of the group loop: the five fields pulled out of the group, the
   * creation time parsed, and the VssInfo constructed.
   */
  method ReadGroup(value: string, parseTime: string -> Option<UtcTime>) returns (r: Result<VssInfo, ParseError>)
    ensures r == RecordOf(value, parseTime)
  {
    var createTimeRaw := FieldValue(value, CreationLabel);
    var shadowCopyId := FieldValue(value, IdLabel);
    var shadowCopyVolume := FieldValue(value, VolumeLabel);
    var originatingMachine := FieldValue(value, OriginLabel);
    var serviceMachine := FieldValue(value, ServiceLabel);
    var createdOn := parseTime(createTimeRaw);
    if createdOn.None? {
      return Failure(BadCreationTime(createTimeRaw));
    }
    r := NewVssInfo(createdOn.value, shadowCopyId, shadowCopyVolume, originatingMachine, serviceMachine);
  }

  /**
   * The group loop for one match: it visits the group indices 1 to
   * Groups.Count and skips the groups that did not succeed. Only group 1
   * succeeds, so a match adds exactly one record, or throws.
   */
  method RecordsOfMatch(stdOut: string, b: Block, parseTime: string -> Option<UtcTime>)
    returns (r: Result<seq<VssInfo>, ParseError>)
    requires BlockAt(stdOut, b.start, b.close)
    ensures var rec := RecordOf(GroupText(stdOut, b), parseTime);
      r == match rec case Success(v) => Success([v]) case Failure(e) => Failure(e)
  {
    ghost var rec := RecordOf(GroupText(stdOut, b), parseTime);
    var added: seq<VssInfo> := [];
    for i := 1 to GroupCount + 1
      invariant i == 1 ==> added == []
      invariant i > 1 ==> rec.Success? && added == [rec.value]
    {
      var groupObj := Group(stdOut, b, i);
      if groupObj.None? {
        continue;
      }
      var vi := ReadGroup(groupObj.value, parseTime);
      if vi.Failure? {
        return Failure(vi.error);
      }
      added := added + [vi.value];
    }
    r := Success(added);
  }

  /** One more match moves its group from the unscanned part of the report to the scanned part. */
  lemma ScanStep(s: string, from: nat, b: Block, done: seq<string>)
    requires from <= |s| && FindBlock(s, from) == Some(b)
    ensures Blocks(s, from) == [GroupText(s, b)] + Blocks(s, MatchEnd(s, b))
    ensures done + Blocks(s, from) == done + [GroupText(s, b)] + Blocks(s, MatchEnd(s, b))
  {
  }

  /**
   * GetVssForVolume, from the point where the report has been captured.
   * The loop advances from match to match as NextMatch does.
   */
  method GetVssForVolume(stdOut: string, parseTime: string -> Option<UtcTime>)
    returns (r: Result<seq<VssInfo>, ParseError>)
    ensures r == Discover(stdOut, parseTime)
  {
    var vss: seq<VssInfo> := [];
    ghost var done: seq<string> := [];
    var from: nat := 0;  // where NextMatch resumes the scan
    var matchResult := FindBlock(stdOut, 0);
    while matchResult.Some?
      invariant from <= |stdOut| && matchResult == FindBlock(stdOut, from)
      invariant Blocks(stdOut, 0) == done + Blocks(stdOut, from)
      invariant MapAll(done, RecordReader(parseTime)) == Success(vss)
      decreases |stdOut| - from
    {
      var b := matchResult.value;
      ghost var group1 := GroupText(stdOut, b);
      ghost var rest := Blocks(stdOut, MatchEnd(stdOut, b));
      ScanStep(stdOut, from, b, done);
      var added := RecordsOfMatch(stdOut, b, parseTime);
      if added.Failure? {
        MapAllStopsAt(done, group1, rest, RecordReader(parseTime));
        return Failure(added.error);
      }
      MapAllSnoc(done, group1, RecordReader(parseTime));
      vss := vss + added.value;
      done := done + [group1];
      from := MatchEnd(stdOut, b);
      matchResult := FindBlock(stdOut, from);
    }
    assert done + [] == done;
    r := Success(vss);
  }

  /**
   * Discovery yields one record per block of the report, in report order;
   * record n carries the five fields of block n and the number of its volume path.
   */
  lemma DiscoverOnePerBlock(stdOut: string, parseTime: string -> Option<UtcTime>)
    requires Discover(stdOut, parseTime).Success?
    ensures var blocks, vss := Blocks(stdOut, 0), Discover(stdOut, parseTime).value;
      && |vss| == |blocks|
      && forall n :: 0 <= n < |blocks| ==>
           && parseTime(FieldValue(blocks[n], CreationLabel)) == Some(vss[n].createdOn)
           && vss[n].shadowCopyId == FieldValue(blocks[n], IdLabel)
           && vss[n].shadowCopyVolume == FieldValue(blocks[n], VolumeLabel)
           && vss[n].originatingMachine == FieldValue(blocks[n], OriginLabel)
           && vss[n].servicingMachine == FieldValue(blocks[n], ServiceLabel)
           && VssNumberOf(vss[n].shadowCopyVolume) == Success(vss[n].vssNumber)
  {
    MapAllPointwise(Blocks(stdOut, 0), RecordReader(parseTime));
  }

  /**
   * One malformed block makes the whole discovery fail, with that block's
   * error when it is the first malformed one.
   */
  lemma DiscoverAllOrNothing(stdOut: string, parseTime: string -> Option<UtcTime>)
    ensures var blocks := Blocks(stdOut, 0);
      Discover(stdOut, parseTime).Failure? <==>
        exists n :: 0 <= n < |blocks| && RecordOf(blocks[n], parseTime).Failure?
    ensures var blocks := Blocks(stdOut, 0);
      Discover(stdOut, parseTime).Failure? ==>
        exists n :: 0 <= n < |blocks| && RecordOf(blocks[n], parseTime) == Failure(Discover(stdOut, parseTime).error)
                    && forall m :: 0 <= m < n ==> RecordOf(blocks[m], parseTime).Success?
  {
    MapAllFirstFailure(Blocks(stdOut, 0), RecordReader(parseTime));
  }

  /** A report with no block head ("No items found that satisfy the query.") gives no records. */
  lemma DiscoverNothing(stdOut: string, parseTime: string -> Option<UtcTime>)
    requires IndexOf(stdOut, BlockHead) == -1
    ensures Discover(stdOut, parseTime) == Success([])
  {
    NoHeadNoBlocks(stdOut);
  }
}
