/** Which parked jobs a tick resumes, for the reasons the steps park with. */
module ResumeLaws {
  import opened Wrappers
  import opened Jobs
  import opened Scheduler
  import opened JobLaws

  /** Why a step parks its job, with the text that goes into the row. */
  datatype Blocker =
    | MetadataMissing
    | NyaaOpen
    | NyaaDown(error: string)
    | FolderMissing(path: string)
    | LittleSpace(free: string, floor: string)
    | FolderGone(path: string)
    | FolderReadOnly(path: string)
    | ClientDown(error: string)
    | ClientUnusable(error: string)
    | ClientRefused(error: string)
    | ClientSilent(error: string)

  function Text(b: Blocker): string {
    match b
    case MetadataMissing => "Metadata unresolved" + ": refresh metadata before searching for releases"
    case NyaaOpen => "Nyaa's circuit breaker is open"
    case NyaaDown(error) => "Nyaa unreachable: " + error
    case FolderMissing(path) => "download folder " + path + " is missing"
    case LittleSpace(free, floor) => "free space " + free + " GiB is below the " + floor + " GiB floor"
    case FolderGone(path) => "download folder '" + path + "' is missing"
    case FolderReadOnly(path) => "download folder '" + path + "' is not writable"
    case ClientDown(error) => "qBittorrent " + "is not reachable: " + error
    case ClientUnusable(error) => "qBittorrent " + "is not usable: " + error
    case ClientRefused(error) => "qBittorrent " + "refused the add: " + error
    case ClientSilent(error) => "qBittorrent " + ("unreachable while" + " monitoring: ") + error
  }

  // ------------------------------------------------------------ parts of texts

  lemma ContainsAt(s: string, part: string, i: nat)
    requires i + |part| <= |s| && s[i..i + |part|] == part
    ensures Contains(s, part)
  {
    assert PartAt(s, part, i);
  }

  lemma PartBringsItsCharacters(s: string, part: string, i: nat, k: nat)
    requires PartAt(s, part, i) && k < |part|
    ensures part[k] in s
  {
    assert s[i + k] == s[i..i + |part|][k];
  }

  /** A text that lacks one character of a part does not contain the part. */
  lemma LacksCharacter(s: string, part: string, k: nat)
    requires k < |part| && part[k] !in s
    ensures !Contains(s, part)
  {
    if Contains(s, part) {
      var i :| 0 <= i <= |s| && PartAt(s, part, i);
      PartBringsItsCharacters(s, part, i, k);
    }
  }

  /** A part does not lie across a seam that one of its neighbours is foreign to. */
  ghost predicate Seam(a: string, b: string, part: string) {
    a == [] || a[|a| - 1] !in part || (b != [] && b[0] !in part)
  }

  lemma ContainsInEither(a: string, b: string, part: string)
    requires part != [] && Seam(a, b, part)
    ensures Contains(a + b, part) <==> Contains(a, part) || Contains(b, part)
  {
    hide PartAt, Seam;
    if Contains(a, part) {
      var i :| 0 <= i <= |a| && PartAt(a, part, i);
      PartInFront(a, b, part, i);
    }
    if Contains(b, part) {
      var i :| 0 <= i <= |b| && PartAt(b, part, i);
      PartBehind(a, b, part, i);
    }
    if Contains(a + b, part) {
      var i :| 0 <= i <= |a + b| && PartAt(a + b, part, i);
      NotAcross(a, b, part, i);
      if i + |part| <= |a| { PartInFront(a, b, part, i); } else { PartBehind(a, b, part, i - |a|); }
    }
  }

  lemma PartInFront(a: string, b: string, part: string, i: nat)
    ensures PartAt(a, part, i) ==> PartAt(a + b, part, i)
    ensures PartAt(a + b, part, i) && i + |part| <= |a| ==> PartAt(a, part, i)
  {
    if i + |part| <= |a| { assert (a + b)[i..i + |part|] == a[i..i + |part|]; }
  }

  lemma PartBehind(a: string, b: string, part: string, i: nat)
    requires i <= |b|
    ensures PartAt(a + b, part, |a| + i) <==> PartAt(b, part, i)
  {
    if i + |part| <= |b| { assert (a + b)[|a| + i..|a| + i + |part|] == b[i..i + |part|]; }
  }

  lemma NotAcross(a: string, b: string, part: string, i: nat)
    requires Seam(a, b, part) && PartAt(a + b, part, i)
    ensures i + |part| <= |a| || i >= |a|
  {
    if i < |a| < i + |part| {
      SeamCharacters(a, b, part, i);
    }
  }

  lemma SeamCharacters(a: string, b: string, part: string, i: nat)
    requires i < |a| < i + |part| && PartAt(a + b, part, i)
    ensures a[|a| - 1] in part && b != [] && b[0] in part
  {
    var s := a + b;
    assert s[|a| - 1] == part[|a| - 1 - i] && s[|a|] == part[|a| - i];
  }

  /** A text between two others that both lack a character of the part. */
  lemma ContainsInTheMiddle(front: string, middle: string, back: string, part: string, k: nat)
    requires k < |part| && part[k] !in front && part[k] !in back
    requires Seam(front, middle + back, part) && Seam(middle, back, part)
    ensures Contains(front + middle + back, part) <==> Contains(middle, part)
  {
    assert front + middle + back == front + (middle + back);
    ContainsInEither(front, middle + back, part);
    ContainsInEither(middle, back, part);
    LacksCharacter(front, part, k);
    LacksCharacter(back, part, k);
  }

  // ------------------------------------------------------------ each reason and its probe

  /** What has to be in order before a job parked for this reason goes on. */
  ghost predicate InOrder(b: Blocker, probes: Probes) {
    match b
    case MetadataMissing => probes.metadataReady
    case NyaaOpen => probes.nyaaAllows
    case NyaaDown(_) => probes.nyaaAllows
    case FolderMissing(_) => probes.resourcesFree
    case LittleSpace(_, _) => probes.resourcesFree
    case FolderGone(_) => probes.resourcesFree
    case FolderReadOnly(_) => probes.resourcesFree
    case _ => true
  }

  /** The part of the text that comes from elsewhere: a path, or the text of an error. */
  ghost function Foreign(b: Blocker): string {
    match b
    case MetadataMissing => ""
    case NyaaOpen => ""
    case NyaaDown(_) => ""
    case FolderMissing(path) => path
    case LittleSpace(_, _) => ""
    case FolderGone(path) => path
    case FolderReadOnly(path) => path
    case ClientDown(error) => error
    case ClientUnusable(error) => error
    case ClientRefused(error) => error
    case ClientSilent(error) => error
  }

  ghost predicate AboutClient(b: Blocker) {
    b.ClientDown? || b.ClientUnusable? || b.ClientRefused? || b.ClientSilent?
  }

  /** Numbers of GiB are printed in digits. */
  ghost predicate PlainNumbers(b: Blocker) {
    b.LittleSpace? ==> 'N' !in b.free && 'N' !in b.floor
  }

  lemma MetadataReason(probes: Probes)
    ensures Cleared(Text(MetadataMissing), probes) <==> probes.metadataReady
  {
    assert "Metadata unresolved" <= Text(MetadataMissing);
  }

  lemma NyaaReason(text: string, probes: Probes)
    requires |text| >= 4 && text[0..4] == "Nyaa"
    ensures Cleared(text, probes) <==> probes.nyaaAllows
  {
    assert text[0] == 'N' && "Metadata unresolved"[0] == 'M';
    ContainsAt(text, "Nyaa", 0);
  }

  lemma SourceReasons(b: Blocker, probes: Probes)
    requires b.MetadataMissing? || b.NyaaOpen? || b.NyaaDown?
    ensures Cleared(Text(b), probes) <==> InOrder(b, probes)
  {
    hide Cleared;
    if b.MetadataMissing? {
      MetadataReason(probes);
    } else {
      assert Text(b)[0..4] == "Nyaa";
      NyaaReason(Text(b), probes);
    }
  }

  lemma FolderReason(text: string, path: string, back: string, quote: string, probes: Probes)
    requires quote == [] || quote == "'"
    requires text == "download folder " + quote + path + back && 'N' !in back && back != []
    requires back[0] == ' ' || back[0] == '\''
    ensures Cleared(text, probes) <==> if Contains(path, "Nyaa") then probes.nyaaAllows else probes.resourcesFree
  {
    var front := "download folder " + quote;
    ContainsInTheMiddle(front, path, back, "Nyaa", 0);
    assert text == front + path + back;
    assert text[0] == 'd' && "Metadata unresolved"[0] == 'M';
    assert text[9..15] == "folder";
    ContainsAt(text, "folder", 9);
  }

  lemma FolderReasons(b: Blocker, probes: Probes)
    requires b.FolderMissing? || b.FolderGone? || b.FolderReadOnly?
    ensures Cleared(Text(b), probes) <==>
            if Contains(Foreign(b), "Nyaa") then probes.nyaaAllows else probes.resourcesFree
  {
    hide Cleared, Contains;
    var back, quote :=
      if b.FolderMissing? then " is missing" else if b.FolderGone? then "' is missing" else "' is not writable",
      if b.FolderMissing? then "" else "'";
    assert Text(b) == "download folder " + quote + b.path + back;
    FolderReason(Text(b), b.path, back, quote, probes);
  }

  lemma SpaceReason(b: Blocker, probes: Probes)
    requires b.LittleSpace? && PlainNumbers(b)
    ensures Cleared(Text(b), probes) <==> probes.resourcesFree
  {
    var text := Text(b);
    assert text[0] == 'f' && "Metadata unresolved"[0] == 'M';
    assert 'N' !in text;
    LacksCharacter(text, "Nyaa", 0);
    assert text[5..10] == "space";
    ContainsAt(text, "space", 5);
  }

  /** What the client's error says decides, if it says one of the three words. */
  ghost predicate ByError(error: string, probes: Probes) {
    if Contains(error, "Nyaa") then probes.nyaaAllows
    else if Contains(error, "space") || Contains(error, "folder") then probes.resourcesFree
    else true
  }

  /** A text about the client up to its error: it holds none of the three words. */
  ghost predicate PlainFront(front: string, k: nat) {
    && front != [] && front[0] == 'q' && front[|front| - 1] == ' '
    && 'N' !in front && 'p' !in front && k < 6 && "folder"[k] !in front
  }

  /** None of the three words can start, or go on, in a text without these characters. */
  ghost predicate Lacks(s: string, k: nat) {
    'N' !in s && 'p' !in s && k < 6 && "folder"[k] !in s
  }

  lemma ClientLacks()
    ensures Lacks("qBittorrent ", 0) && Lacks("qBittorrent ", 2)
  {
  }

  lemma DownLacks()
    ensures Lacks("is not reachable: ", 0)
  {
  }

  lemma UnusableLacks()
    ensures Lacks("is not usable: ", 0)
  {
  }

  lemma RefusedLacks()
    ensures Lacks("refused the add: ", 2)
  {
  }

  lemma SilentLacks()
    ensures Lacks("unreachable while", 0) && Lacks(" monitoring: ", 0)
  {
  }

  lemma BothLack(a: string, b: string, k: nat)
    requires Lacks(a, k) && Lacks(b, k)
    ensures Lacks(a + b, k)
  {
  }

  lemma FrontIsPlain(front: string, k: nat)
    requires Lacks(front, k) && (k == 0 || k == 2) && front != [] && front[|front| - 1] == ' '
    ensures PlainFront("qBittorrent " + front, k)
  {
    assert Lacks("qBittorrent " + front, k) by {
      ClientLacks();
      BothLack("qBittorrent ", front, k);
    }
    assert ("qBittorrent " + front)[0] == 'q';
  }

  lemma ClientReason(front: string, error: string, probes: Probes, k: nat)
    requires PlainFront(front, k)
    ensures Cleared(front + error, probes) <==> ByError(error, probes)
  {
    assert (front + error)[0] == 'q' && "Metadata unresolved"[0] == 'M';
    ContainsInEither(front, error, "Nyaa");
    ContainsInEither(front, error, "space");
    ContainsInEither(front, error, "folder");
    LacksCharacter(front, "Nyaa", 0);
    LacksCharacter(front, "space", 1);
    LacksCharacter(front, "folder", k);
  }

  lemma Client(front: string, error: string, probes: Probes, k: nat)
    requires Lacks(front, k) && (k == 0 || k == 2) && front != [] && front[|front| - 1] == ' '
    ensures Cleared("qBittorrent " + front + error, probes) <==> ByError(error, probes)
  {
    hide Cleared, ByError, PlainFront, Lacks;
    FrontIsPlain(front, k);
    ClientReason("qBittorrent " + front, error, probes, k);
  }

  lemma ClientReasons(b: Blocker, probes: Probes)
    requires AboutClient(b)
    ensures Cleared(Text(b), probes) <==> ByError(Foreign(b), probes)
  {
    hide Cleared, ByError, PlainFront, Lacks;
    DownLacks();
    UnusableLacks();
    RefusedLacks();
    SilentLacks();
    BothLack("unreachable while", " monitoring: ", 0);
    match b
    case ClientDown(error) => Client("is not reachable: ", error, probes, 0);
    case ClientUnusable(error) => Client("is not usable: ", error, probes, 0);
    case ClientRefused(error) => Client("refused the add: ", error, probes, 2);
    case ClientSilent(error) => Client("unreachable while" + " monitoring: ", error, probes, 0);
  }

  /** The foreign part of the text misleads: a path with the word for the release site, or an error of the client
      with any of the three words. */
  ghost predicate Misleading(b: Blocker) {
    || Contains(Foreign(b), "Nyaa")
    || (AboutClient(b) && (Contains(Foreign(b), "space") || Contains(Foreign(b), "folder")))
  }

  lemma NothingInNothing(part: string)
    requires part != []
    ensures !Contains("", part)
  {
  }

  /** A parked job is resumed exactly when what it was parked for is in order, whatever the probes say, if and only
      if the path or error in its reason does not mislead. */
  lemma ResumedWhenInOrderIff(b: Blocker)
    requires PlainNumbers(b)
    ensures (forall probes :: Cleared(Text(b), probes) <==> InOrder(b, probes)) <==> !Misleading(b)
  {
    hide Cleared, Contains, Text;
    NothingInNothing("Nyaa");
    forall probes ensures Cleared(Text(b), probes) <==> Answer(b, probes) {
      if b.MetadataMissing? || b.NyaaOpen? || b.NyaaDown? { SourceReasons(b, probes); }
      else if b.LittleSpace? { SpaceReason(b, probes); }
      else if AboutClient(b) { ClientReasons(b, probes); }
      else { FolderReasons(b, probes); }
    }
    if Misleading(b) {
      var probes := if Contains(Foreign(b), "Nyaa") then Probes(true, false, true) else Probes(true, true, false);
      assert Cleared(Text(b), probes) <==> Answer(b, probes);
    }
  }

  /** The probe that is asked. */
  ghost predicate Answer(b: Blocker, probes: Probes) {
    if b.FolderMissing? || b.FolderGone? || b.FolderReadOnly? then
      if Contains(Foreign(b), "Nyaa") then probes.nyaaAllows else probes.resourcesFree
    else if AboutClient(b) then ByError(Foreign(b), probes)
    else InOrder(b, probes)
  }

  /** From parking to resuming: a job parked from a main step for such a reason is resumed by a tick, if its listed row
      is that one, exactly when what it waits for is in order. */
  lemma ParkedIsResumedIff(db: Db, at: int, id: int, b: Blocker, probes: Probes)
    requires id in db.jobs && OnMainLine(db.jobs[id].state) && PlainNumbers(b) && !Misleading(b)
    ensures var parked := Jobs.Apply(db, Park(at, id, db.jobs[id].state, Text(b)));
            && id in parked.jobs && parked.jobs[id].state == Blocked
            && parked.jobs[id].blockedFrom == Some(db.jobs[id].state)
            && (Resumes(parked.jobs[id], probes) <==> InOrder(b, probes))
  {
    hide Cleared, Text, InOrder, Misleading, Jobs.Apply;
    ParkWritesColumns(db, at, id, db.jobs[id].state, Text(b));
    ResumedWhenInOrderIff(b);
    assert Cleared(Text(b), probes) <==> InOrder(b, probes);
  }
}
