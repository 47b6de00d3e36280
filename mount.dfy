/**
 * MountVss (Helpers.cs): one directory symbolic link per discovered shadow
 * copy, under a mount root that is created when it is missing.
 *
 * The file system is a value: the directories that exist and the symbolic
 * links with their targets. Whether Directory.CreateDirectory succeeds and
 * what each CreateSymbolicLink call returns are supplied by the caller, as is
 * the report that vssadmin printed and the parser for its creation times.
 */
module Mount {
  import opened Wrappers
  import opened Text
  import opened Clock
  import opened Snapshot
  import opened Discovery

  /** The text between the mount root and the padded number. */
  const LinkStem: string := "\\vss"

  /**
   * `{mountRoot}\vss{VssNumber:000}`, followed by `-{CreatedOn:yyyyMMddTHHmmss}`
   * when dates are used in names.
   */
  function LinkName(mountRoot: string, info: VssInfo, useDatesInNames: bool): (name: string)
    ensures |name| >= |mountRoot + LinkStem| + 3
    ensures name[..|mountRoot + LinkStem|] == mountRoot + LinkStem
  {
    var mountDir := mountRoot + LinkStem + PadNumber(info.vssNumber, 3);
    if useDatesInNames then mountDir + "-" + CompactStamp(info.createdOn) else mountDir
  }

  /** The link target: the shadow copy's device path with a trailing backslash. */
  function LinkTarget(info: VssInfo): (target: string)
    ensures |target| == |info.shadowCopyVolume| + 1
    ensures target[..|info.shadowCopyVolume|] == info.shadowCopyVolume && target[|target| - 1] == '\\'
  {
    info.shadowCopyVolume + "\\"
  }

  /** In `x + "-" + u` the characters of `x` come first and the dash right after them. */
  lemma DashAfter(x: string, u: string)
    ensures forall i :: 0 <= i < |x| ==> (x + "-" + u)[i] == x[i]
    ensures (x + "-" + u)[|x|] == '-'
  {
  }

  /** Two digit strings each followed by a dash split the same way. */
  lemma DigitsBeforeDash(x: string, y: string, u: string, v: string)
    requires AllDigits(x) && AllDigits(y)
    requires x + "-" + u == y + "-" + v
    ensures x == y && u == v
  {
    var l, r := x + "-" + u, y + "-" + v;
    DashAfter(x, u);
    DashAfter(y, v);
    if |x| < |y| {
      assert false;
    } else if |y| < |x| {
      assert false;
    }
    assert x == l[..|x|] && y == r[..|y|];
    assert u == l[|x| + 1..] && v == r[|y| + 1..];
  }

  /** A stem, digits and an optional dash and stamp determine each other. */
  lemma NamePartsDistinct(stem: string, pa: string, pb: string, sa: string, sb: string, withStamp: bool)
    requires AllDigits(pa) && AllDigits(pb)
    ensures (if withStamp then stem + pa + "-" + sa else stem + pa) == (if withStamp then stem + pb + "-" + sb else stem + pb)
            <==> pa == pb && (withStamp ==> sa == sb)
  {
    var na := if withStamp then stem + pa + "-" + sa else stem + pa;
    var nb := if withStamp then stem + pb + "-" + sb else stem + pb;
    if na == nb {
      assert na[|stem|..] == nb[|stem|..];
      if withStamp {
        assert na[|stem|..] == pa + "-" + sa;
        assert nb[|stem|..] == pb + "-" + sb;
        DigitsBeforeDash(pa, pb, sa, sb);
      } else {
        assert na[|stem|..] == pa;
        assert nb[|stem|..] == pb;
      }
    }
  }

  /**
   * Two records get the same link name exactly when they have the same
   * number and, if dates are used, the same creation time to the second.
   */
  lemma LinkNameInjective(mountRoot: string, a: VssInfo, b: VssInfo, useDatesInNames: bool)
    ensures LinkName(mountRoot, a, useDatesInNames) == LinkName(mountRoot, b, useDatesInNames)
            <==> a.vssNumber == b.vssNumber && (useDatesInNames ==> SameSecond(a.createdOn, b.createdOn))
  {
    StampDistinguishesSeconds(a.createdOn, b.createdOn);
    PadNumberInjective(a.vssNumber, b.vssNumber, 3);
    NamePartsDistinct(mountRoot + LinkStem, PadNumber(a.vssNumber, 3), PadNumber(b.vssNumber, 3),
                      CompactStamp(a.createdOn), CompactStamp(b.createdOn), useDatesInNames);
  }

  /** Records whose numbers (or, with dates, numbers or seconds) differ get distinct names. */
  lemma DistinctRecordsDistinctNames(mountRoot: string, records: seq<VssInfo>, useDatesInNames: bool)
    requires forall m, n :: 0 <= m < n < |records| ==>
               records[m].vssNumber != records[n].vssNumber
               || (useDatesInNames && !SameSecond(records[m].createdOn, records[n].createdOn))
    ensures forall m, n :: 0 <= m < n < |records| ==>
               LinkName(mountRoot, records[m], useDatesInNames) != LinkName(mountRoot, records[n], useDatesInNames)
  {
    forall m, n | 0 <= m < n < |records|
      ensures LinkName(mountRoot, records[m], useDatesInNames) != LinkName(mountRoot, records[n], useDatesInNames)
    {
      LinkNameInjective(mountRoot, records[m], records[n], useDatesInNames);
    }
  }

  /** Shadow copy 1 is linked as "vss001" when dates are not used. */
  lemma FirstSnapshotName(mountRoot: string, info: VssInfo)
    requires info.vssNumber == 1
    ensures LinkName(mountRoot, info, false) == mountRoot + "\\vss001"
  {
    assert Decimal(1) == "1";
    assert PadNumber(1, 1) == "1";
    assert PadNumber(1, 3) == "001";
  }

  /** Numbers of four digits or more are not cut: shadow copy 1234 is "vss1234". */
  lemma WideNumberName(mountRoot: string, info: VssInfo)
    requires info.vssNumber == 1234
    ensures LinkName(mountRoot, info, false) == mountRoot + "\\vss1234"
  {
    assert Decimal(1234) == "1234";
  }

  /** One CreateSymbolicLink call: the link path, its target and what the call returned. */
  datatype Attempt = Attempt(link: string, target: string, worked: bool)

  /** What MountVss does to the file system, in order. */
  datatype Effect = MadeDirectory(path: string) | TriedLink(attempt: Attempt)

  /** The directories that exist and the symbolic links with their targets. */
  datatype Disk = Disk(directories: set<string>, links: map<string, string>)

  /** A created directory is added; a link call that returned true adds or replaces its link. */
  function Perform(disk: Disk, e: Effect): (after: Disk)
    ensures e.MadeDirectory? ==> after == Disk(disk.directories + {e.path}, disk.links)
    ensures e.TriedLink? && e.attempt.worked ==> after == Disk(disk.directories, disk.links[e.attempt.link := e.attempt.target])
    ensures e.TriedLink? && !e.attempt.worked ==> after == disk
  {
    match e
    case MadeDirectory(p) => disk.(directories := disk.directories + {p})
    case TriedLink(a) => if a.worked then disk.(links := disk.links[a.link := a.target]) else disk
  }

  /** The file system after a sequence of effects. */
  function PerformAll(disk: Disk, es: seq<Effect>): Disk {
    if es == [] then disk else Perform(PerformAll(disk, es[..|es| - 1]), es[|es| - 1])
  }

  lemma PerformSnoc(disk: Disk, es: seq<Effect>, e: Effect)
    ensures PerformAll(disk, es + [e]) == Perform(PerformAll(disk, es), e)
  {
    assert (es + [e])[..|es|] == es;
  }

  /** Effects applied one after the other: the second list starts from where the first left the disk. */
  lemma {:induction false} PerformAppend(disk: Disk, es: seq<Effect>, fs: seq<Effect>)
    ensures PerformAll(disk, es + fs) == PerformAll(PerformAll(disk, es), fs)
    decreases |fs|
  {
    if fs == [] {
      assert es + fs == es;
    } else {
      var k := |fs| - 1;
      assert es + fs == (es + fs[..k]) + [fs[k]];
      assert fs == fs[..k] + [fs[k]];
      PerformSnoc(disk, es + fs[..k], fs[k]);
      PerformSnoc(PerformAll(disk, es), fs[..k], fs[k]);
      PerformAppend(disk, es, fs[..k]);
    }
  }

  /** Link calls at pairwise distinct paths. */
  predicate DistinctLinks(es: seq<Effect>) {
    && (forall n :: 0 <= n < |es| ==> es[n].TriedLink?)
    && (forall m, n :: 0 <= m < n < |es| ==> es[m].attempt.link != es[n].attempt.link)
  }

  /** `p` has the same link, or no link, in both disks. */
  predicate SameEntry(before: Disk, after: Disk, p: string) {
    && (p in after.links <==> p in before.links)
    && (p in before.links ==> after.links[p] == before.links[p])
  }

  /**
   * Link calls at distinct paths leave the directories alone, install the
   * link of every call that worked, and change no other path.
   */
  lemma {:induction false} PerformDistinctLinks(disk: Disk, es: seq<Effect>)
    requires DistinctLinks(es)
    ensures PerformAll(disk, es).directories == disk.directories
    ensures forall n :: 0 <= n < |es| && es[n].attempt.worked ==>
              var links := PerformAll(disk, es).links;
              es[n].attempt.link in links && links[es[n].attempt.link] == es[n].attempt.target
    ensures forall n :: 0 <= n < |es| && !es[n].attempt.worked ==>
              SameEntry(disk, PerformAll(disk, es), es[n].attempt.link)
    ensures forall p :: (forall n :: 0 <= n < |es| ==> p != es[n].attempt.link) ==>
              SameEntry(disk, PerformAll(disk, es), p)
    decreases |es|
  {
    if es != [] {
      var k := |es| - 1;
      var pre := es[..k];
      assert DistinctLinks(pre);
      PerformDistinctLinks(disk, pre);
      assert es == pre + [es[k]];
      PerformSnoc(disk, pre, es[k]);
      var mid, a := PerformAll(disk, pre), es[k].attempt;
      var after := Perform(mid, es[k]);
      forall n | 0 <= n < k
        ensures pre[n] == es[n] && es[n].attempt.link != a.link
      {
      }
      forall p | p != a.link
        ensures SameEntry(mid, after, p)
      {
      }
      assert SameEntry(disk, mid, a.link);
      forall p | forall n :: 0 <= n < |es| ==> p != es[n].attempt.link
        ensures SameEntry(disk, after, p)
      {
        assert forall n :: 0 <= n < |pre| ==> p != pre[n].attempt.link;
        assert SameEntry(disk, mid, p);
        assert p != es[k].attempt.link;
        assert SameEntry(mid, after, p);
      }
    }
  }

  /** The root creation, when the root is missing. */
  function RootEffects(mountRoot: string, disk: Disk): (es: seq<Effect>)
    ensures es == [] <==> mountRoot in disk.directories
    ensures forall n :: 0 <= n < |es| ==> es[n] == MadeDirectory(mountRoot)
  {
    if mountRoot in disk.directories then [] else [MadeDirectory(mountRoot)]
  }

  /** After the root effects the root exists and no link has changed. */
  lemma RootCreated(mountRoot: string, disk: Disk)
    ensures PerformAll(disk, RootEffects(mountRoot, disk)) == Disk(disk.directories + {mountRoot}, disk.links)
  {
    if mountRoot !in disk.directories {
      assert RootEffects(mountRoot, disk)[..0] == [];
    } else {
      assert disk.directories + {mountRoot} == disk.directories;
    }
  }

  /** The call the loop makes for one record, with the outcome it got. */
  function LinkAttempt(mountRoot: string, info: VssInfo, useDatesInNames: bool, worked: bool): Effect {
    TriedLink(Attempt(LinkName(mountRoot, info, useDatesInNames), LinkTarget(info), worked))
  }

  /**
   * The link attempts of the foreach loop: one per record, in list order, each
   * with its name and target and the outcome of call n.
   */
  function LinkAttempts(mountRoot: string, records: seq<VssInfo>, useDatesInNames: bool,
                        linkWorks: nat -> bool): (es: seq<Effect>)
    ensures |es| == |records|
  {
    seq(|records|, n requires 0 <= n < |records| => LinkAttempt(mountRoot, records[n], useDatesInNames, linkWorks(n)))
  }

  /** Attempt n links record n's name to its target, with the outcome of call n. */
  lemma AttemptOfRecord(mountRoot: string, records: seq<VssInfo>, useDatesInNames: bool,
                        linkWorks: nat -> bool, n: nat)
    requires n < |records|
    ensures |LinkAttempts(mountRoot, records, useDatesInNames, linkWorks)| == |records|
    ensures LinkAttempts(mountRoot, records, useDatesInNames, linkWorks)[n]
            == TriedLink(Attempt(LinkName(mountRoot, records[n], useDatesInNames), LinkTarget(records[n]), linkWorks(n)))
  {
  }

  /** The attempts for one more record of the list. */
  lemma LinkAttemptsExtend(mountRoot: string, records: seq<VssInfo>, useDatesInNames: bool,
                           linkWorks: nat -> bool, n: nat)
    requires n < |records|
    ensures LinkAttempts(mountRoot, records[..n + 1], useDatesInNames, linkWorks)
            == LinkAttempts(mountRoot, records[..n], useDatesInNames, linkWorks)
               + [LinkAttempt(mountRoot, records[n], useDatesInNames, linkWorks(n))]
  {
    assert records[..n + 1][..n] == records[..n];
  }

  lemma AppendAssociative<T>(a: seq<T>, b: seq<T>, c: seq<T>)
    ensures a + (b + c) == (a + b) + c
  {
  }

  /** One more pass of the foreach loop extends the trace by the next attempt. */
  lemma MountStep(mountRoot: string, disk: Disk, records: seq<VssInfo>, useDatesInNames: bool,
                  linkWorks: nat -> bool, n: nat, effects: seq<Effect>)
    requires n < |records|
    requires effects == RootEffects(mountRoot, disk) + LinkAttempts(mountRoot, records[..n], useDatesInNames, linkWorks)
    ensures var attempt := LinkAttempt(mountRoot, records[n], useDatesInNames, linkWorks(n));
      && effects + [attempt]
         == RootEffects(mountRoot, disk) + LinkAttempts(mountRoot, records[..n + 1], useDatesInNames, linkWorks)
      && PerformAll(disk, effects + [attempt]) == Perform(PerformAll(disk, effects), attempt)
  {
    var attempt := LinkAttempt(mountRoot, records[n], useDatesInNames, linkWorks(n));
    LinkAttemptsExtend(mountRoot, records, useDatesInNames, linkWorks, n);
    AppendAssociative(RootEffects(mountRoot, disk), LinkAttempts(mountRoot, records[..n], useDatesInNames, linkWorks), [attempt]);
    PerformSnoc(disk, effects, attempt);
  }

  /** Why MountVss throws before making any link. */
  datatype MountError = DiscoveryFailed(cause: ParseError) | RootNotCreated

  /** What a completed MountVss saw and did. */
  datatype MountRun = MountRun(records: seq<VssInfo>, effects: seq<Effect>, disk: Disk)

  /**
   * MountVss: discover the shadow copies, create the mount root when it does
   * not exist, then make one link attempt per record. A failed attempt is
   * recorded and the loop goes on.
   */
  method MountVss(mountRoot: string, useDatesInNames: bool, stdOut: string,
                  parseTime: string -> Option<UtcTime>, disk: Disk,
                  rootCreatable: bool, linkWorks: nat -> bool)
    returns (r: Result<MountRun, MountError>)
    ensures Discover(stdOut, parseTime).Failure? ==>
              r == Failure(DiscoveryFailed(Discover(stdOut, parseTime).error))
    ensures Discover(stdOut, parseTime).Success? && mountRoot !in disk.directories && !rootCreatable ==>
              r == Failure(RootNotCreated)
    ensures Discover(stdOut, parseTime).Success? && (mountRoot in disk.directories || rootCreatable) ==>
              && r.Success?
              && r.value.records == Discover(stdOut, parseTime).value
              && r.value.effects == RootEffects(mountRoot, disk)
                                    + LinkAttempts(mountRoot, r.value.records, useDatesInNames, linkWorks)
              && r.value.disk == PerformAll(disk, r.value.effects)
  {
    var existingVss := GetVssForVolume(stdOut, parseTime);
    if existingVss.Failure? {
      return Failure(DiscoveryFailed(existingVss.error));
    }
    var records := existingVss.value;
    var effects: seq<Effect> := [];
    var current := disk;
    if mountRoot !in current.directories {
      if !rootCreatable {
        return Failure(RootNotCreated);
      }
      effects := [MadeDirectory(mountRoot)];
      current := Perform(current, MadeDirectory(mountRoot));
    }
    assert effects == RootEffects(mountRoot, disk) + LinkAttempts(mountRoot, records[..0], useDatesInNames, linkWorks);
    for n := 0 to |records|
      invariant effects == RootEffects(mountRoot, disk)
                           + LinkAttempts(mountRoot, records[..n], useDatesInNames, linkWorks)
      invariant current == PerformAll(disk, effects)
    {
      var vssInfo := records[n];
      // The name and target as Helpers.cs:139-146 builds them; the assertion
      // below shows they are LinkName and LinkTarget.
      var mountDir := mountRoot + LinkStem + PadNumber(vssInfo.vssNumber, 3);
      if useDatesInNames {
        mountDir := mountDir + "-" + CompactStamp(vssInfo.createdOn);
      }
      var worked := linkWorks(n);
      var attempt := TriedLink(Attempt(mountDir, vssInfo.shadowCopyVolume + "\\", worked));
      assert attempt == LinkAttempt(mountRoot, vssInfo, useDatesInNames, linkWorks(n));
      MountStep(mountRoot, disk, records, useDatesInNames, linkWorks, n, effects);
      effects := effects + [attempt];
      current := Perform(current, attempt);
    }
    assert records[..|records|] == records;
    r := Success(MountRun(records, effects, current));
  }

  /**
   * The root step followed by link calls at distinct paths: the root exists
   * afterwards, the calls that worked have installed their links, and every
   * other path has its old entry.
   */
  lemma RootThenLinks(mountRoot: string, disk: Disk, es: seq<Effect>)
    requires DistinctLinks(es)
    ensures var after := PerformAll(disk, RootEffects(mountRoot, disk) + es);
      && after.directories == disk.directories + {mountRoot}
      && (forall n :: 0 <= n < |es| && es[n].attempt.worked ==>
            es[n].attempt.link in after.links && after.links[es[n].attempt.link] == es[n].attempt.target)
      && (forall n :: 0 <= n < |es| && !es[n].attempt.worked ==> SameEntry(disk, after, es[n].attempt.link))
      && (forall p :: (forall n :: 0 <= n < |es| ==> p != es[n].attempt.link) ==> SameEntry(disk, after, p))
  {
    var root := RootEffects(mountRoot, disk);
    RootCreated(mountRoot, disk);
    PerformAppend(disk, root, es);
    var rooted := PerformAll(disk, root);
    PerformDistinctLinks(rooted, es);
    var after := PerformAll(rooted, es);
    assert rooted.links == disk.links;
    forall p | forall n :: 0 <= n < |es| ==> p != es[n].attempt.link
      ensures SameEntry(disk, after, p)
    {
      assert SameEntry(rooted, after, p);
    }
    forall n | 0 <= n < |es| && !es[n].attempt.worked
      ensures SameEntry(disk, after, es[n].attempt.link)
    {
      assert SameEntry(rooted, after, es[n].attempt.link);
    }
  }

  /**
   * With distinct link names, after the run the root exists, every attempt
   * that worked has its link to its target, a failed attempt leaves its name
   * as it was, and every other entry is untouched.
   */
  lemma MountedLinks(mountRoot: string, records: seq<VssInfo>, useDatesInNames: bool,
                     linkWorks: nat -> bool, disk: Disk)
    requires forall m, n :: 0 <= m < n < |records| ==>
               LinkName(mountRoot, records[m], useDatesInNames) != LinkName(mountRoot, records[n], useDatesInNames)
    ensures var after := PerformAll(disk, RootEffects(mountRoot, disk)
                                          + LinkAttempts(mountRoot, records, useDatesInNames, linkWorks));
      && after.directories == disk.directories + {mountRoot}
      && (forall n :: 0 <= n < |records| && linkWorks(n) ==>
            var name := LinkName(mountRoot, records[n], useDatesInNames);
            name in after.links && after.links[name] == LinkTarget(records[n]))
      && (forall n :: 0 <= n < |records| && !linkWorks(n) ==>
            SameEntry(disk, after, LinkName(mountRoot, records[n], useDatesInNames)))
      && (forall p :: (forall n :: 0 <= n < |records| ==> p != LinkName(mountRoot, records[n], useDatesInNames)) ==>
            SameEntry(disk, after, p))
  {
    var es := LinkAttempts(mountRoot, records, useDatesInNames, linkWorks);
    var after := PerformAll(disk, RootEffects(mountRoot, disk) + es);
    forall n | 0 <= n < |records|
      ensures es[n] == TriedLink(Attempt(LinkName(mountRoot, records[n], useDatesInNames), LinkTarget(records[n]), linkWorks(n)))
    {
      AttemptOfRecord(mountRoot, records, useDatesInNames, linkWorks, n);
    }
    assert DistinctLinks(es);
    RootThenLinks(mountRoot, disk, es);
    forall p | forall n :: 0 <= n < |records| ==> p != LinkName(mountRoot, records[n], useDatesInNames)
      ensures SameEntry(disk, after, p)
    {
      assert forall n :: 0 <= n < |es| ==> p != es[n].attempt.link;
    }
  }

  /**
   * When no planned name exists before the run (the caller has removed the
   * old vss* entries), a name is linked afterwards exactly when its attempt worked.
   */
  lemma MountedAfterCleanup(mountRoot: string, records: seq<VssInfo>, useDatesInNames: bool,
                            linkWorks: nat -> bool, disk: Disk)
    requires forall m, n :: 0 <= m < n < |records| ==>
               LinkName(mountRoot, records[m], useDatesInNames) != LinkName(mountRoot, records[n], useDatesInNames)
    requires forall n :: 0 <= n < |records| ==> LinkName(mountRoot, records[n], useDatesInNames) !in disk.links
    ensures var after := PerformAll(disk, RootEffects(mountRoot, disk)
                                          + LinkAttempts(mountRoot, records, useDatesInNames, linkWorks));
      forall n :: 0 <= n < |records| ==>
        (LinkName(mountRoot, records[n], useDatesInNames) in after.links <==> linkWorks(n))
  {
    MountedLinks(mountRoot, records, useDatesInNames, linkWorks, disk);
  }
}
