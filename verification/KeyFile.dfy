/**
 The two-file key upgrade: both outputs are written through temporaries, what they replace is backed
 up, and a failure at any file operation rolls everything back; then the hidden files are removed. Every
 file operation fails where the `faults` say, the removals of the clean-up included.
 */
module KeyFile {
  import opened Common

  type Files = map<string, Bytes>

  /** The file operations of one run that can raise an OSError. */
  datatype Point =
    | CreateTemp(path: string)
    | WriteTemp(path: string)
    | CreateBackup(path: string)
    | WriteBackup(path: string)
    | Place(path: string)
    | Restore(path: string)
    | Remove(path: string)
    | Unlink(hidden: string)

  /** How the call ends. `CleanupFailed` is an error raised while the hidden files are removed, whatever came
      before. */
  datatype Outcome =
    | Upgraded
    | PathsNotDistinct
    | OutputExists
    | DirectoryMissing
    | InputRejected
    | WriteFailed
    | RollbackFailed
    | CleanupFailed

  /** The random names of one run's hidden files, per output path, and what a failed write leaves in a file. */
  datatype Names = Names(temp: string -> string, backup: string -> string, partial: string -> Bytes)

  // ------------------------------------------------------------------ what a run does, as functions

  /** The hidden names of both outputs differ from each other and from the three paths. */
  predicate Distinct(n: Names, src: string, out: string, pub: string) {
    && n.temp(out) != n.temp(pub) && n.temp(out) != n.backup(out) && n.temp(out) != n.backup(pub)
    && n.temp(pub) != n.backup(out) && n.temp(pub) != n.backup(pub) && n.backup(out) != n.backup(pub)
    && n.temp(out) !in {src, out, pub} && n.temp(pub) !in {src, out, pub}
    && n.backup(out) !in {src, out, pub} && n.backup(pub) !in {src, out, pub}
  }

  /** Put back what was backed up under each placed path, or remove it if it is new; stop at the first
      operation that fails. Returns the files, the backups still held, and whether all succeeded. */
  function RollbackSpec(files: Files, placed: seq<string>, backups: map<string, string>, existed: set<string>,
                        faults: set<Point>)
    : (Files, map<string, string>, bool)
    decreases |placed|
  {
    if placed == [] then (files, backups, true)
    else
      var path := placed[0];
      if path in backups then
        if Restore(path) in faults || backups[path] !in files then (files, backups - {path}, false)
        else RollbackSpec((files - {backups[path]})[path := files[backups[path]]], placed[1..], backups - {path},
                          existed, faults)
      else if path !in existed then
        if Remove(path) in faults then (files, backups, false)
        else RollbackSpec(files - {path}, placed[1..], backups, existed, faults)
      else RollbackSpec(files, placed[1..], backups, existed, faults)
  }

  function Elements(names: seq<string>): set<string> {
    set name | name in names
  }

  /** `now` is `before` and these further files. */
  ghost predicate Adds(before: Files, now: Files, names: set<string>) {
    now - names == before && names !! before.Keys && names <= now.Keys
  }

  function FirstStuck(names: seq<string>, faults: set<Point>): (k: nat)
    ensures k <= |names| && (k < |names| ==> Unlink(names[k]) in faults)
  {
    if names == [] || Unlink(names[0]) in faults then 0 else 1 + FirstStuck(names[1..], faults)
  }

  predicate OneOfEach(names: seq<string>) {
    forall i, j :: 0 <= i < j < |names| ==> names[i] != names[j]
  }

  /** No other file has the hidden names this path needs. */
  predicate NamesFree(files: Files, path: string, n: Names) {
    n.temp(path) !in files && (path in files ==> n.backup(path) !in files)
  }

  /** The backup of one path, if it exists. */
  function BackupOf(files: Files, path: string, n: Names): Files {
    if path in files then map[n.backup(path) := files[path]] else map[]
  }

  /** The hidden files of a run that could make them all. */
  function Hidden(files: Files, out: string, pub: string, secretPem: Bytes, publicPem: Bytes, n: Names): Files {
    map[n.temp(out) := secretPem, n.temp(pub) := publicPem] + BackupOf(files, out, n) + BackupOf(files, pub, n)
  }

  /** The old files with both temporaries and the backups of what exists. */
  function Staged(files: Files, out: string, pub: string, secretPem: Bytes, publicPem: Bytes, n: Names): Files {
    files + Hidden(files, out, pub, secretPem, publicPem, n)
  }

  /** The files once the secret key is in place and the public key is not. */
  function HalfPlaced(files: Files, out: string, pub: string, secretPem: Bytes, publicPem: Bytes, n: Names): Files {
    (Staged(files, out, pub, secretPem, publicPem, n) - {n.temp(out)})[out := secretPem]
  }

  predicate UndoFails(files: Files, out: string, faults: set<Point>) {
    if out in files then Restore(out) in faults else Remove(out) in faults
  }

  function Undone(files: Files, half: Files, out: string, n: Names): Files {
    if out in files then (half - {n.backup(out)})[out := files[out]] else half - {out}
  }

  /** The new secret key, and the old one, if any, in its backup. */
  function Stuck(files: Files, out: string, secretPem: Bytes, n: Names): Files {
    (if out in files then files[n.backup(out) := files[out]] else files)[out := secretPem]
  }

  function Holding(backups: map<string, string>, files: Files, path: string, n: Names): map<string, string> {
    if path in files then backups[path := n.backup(path)] else backups
  }

  function WithBackups(files: Files, out: string, pub: string, n: Names): Files {
    files + BackupOf(files, out, n) + BackupOf(files, pub, n)
  }

  function HeldBackups(files: Files, out: string, pub: string, n: Names): map<string, string> {
    Holding(Holding(map[], files, out, n), files, pub, n)
  }

  predicate TempBlocked(files: Files, path: string, n: Names, faults: set<Point>) {
    n.temp(path) in files || CreateTemp(path) in faults || WriteTemp(path) in faults
  }

  /** The temporary was created, could not be written and could not be removed. */
  predicate TempSpills(files: Files, path: string, n: Names, faults: set<Point>) {
    n.temp(path) !in files && CreateTemp(path) !in faults && WriteTemp(path) in faults && Unlink(n.temp(path)) in faults
  }

  predicate BackupBlocked(files: Files, path: string, n: Names, faults: set<Point>) {
    path in files && (n.backup(path) in files || CreateBackup(path) in faults || WriteBackup(path) in faults)
  }

  predicate BackupSpills(files: Files, path: string, n: Names, faults: set<Point>) {
    && path in files && n.backup(path) !in files
    && CreateBackup(path) !in faults && WriteBackup(path) in faults && Unlink(n.backup(path)) in faults
  }

  /** A temporary or backup cannot be made, or its name is taken. */
  predicate Blocked(files: Files, path: string, n: Names, faults: set<Point>) {
    TempBlocked(files, path, n, faults) || BackupBlocked(files, path, n, faults)
  }

  function TempSpill(files: Files, out: string, pub: string, n: Names, faults: set<Point>): set<string> {
    var path := if TempBlocked(files, out, n, faults) then out else pub;
    if TempSpills(files, path, n, faults) then {n.temp(path)} else {}
  }

  function BackupSpill(files: Files, out: string, pub: string, n: Names, faults: set<Point>): set<string> {
    var path := if BackupBlocked(files, out, n, faults) then out else pub;
    if BackupSpills(files, path, n, faults) then {n.backup(path)} else {}
  }

  /** The file, if any, whose failed creation could not be undone: nobody keeps its name. */
  function Spill(files: Files, out: string, pub: string, n: Names, faults: set<Point>): set<string> {
    if TempBlocked(files, out, n, faults) || TempBlocked(files, pub, n, faults)
    then TempSpill(files, out, pub, n, faults)
    else BackupSpill(files, out, pub, n, faults)
  }

  function OneBackup(files: Files, path: string, n: Names): seq<string> {
    if path in files then [n.backup(path)] else []
  }

  function InOrder(backups: map<string, string>, out: string, pub: string): seq<string> {
    (if out in backups then [backups[out]] else []) + (if pub in backups then [backups[pub]] else [])
  }

  /** What the clean-up has to remove, in its order. */
  function ToRemove(files: Files, out: string, pub: string, n: Names, faults: set<Point>): seq<string> {
    var temps, first := [n.temp(out), n.temp(pub)], OneBackup(files, out, n);
    var both := first + OneBackup(files, pub, n);
    if TempBlocked(files, out, n, faults) then []
    else if TempBlocked(files, pub, n, faults) then [n.temp(out)]
    else if BackupBlocked(files, out, n, faults) then temps
    else if BackupBlocked(files, pub, n, faults) then temps + first
    else if Place(out) in faults then temps + both
    else if Place(pub) in faults then [n.temp(pub)] + OneBackup(files, pub, n)
    else both
  }

  /** The hidden files that remain, exactly. */
  function Leftover(files: Files, out: string, pub: string, n: Names, faults: set<Point>): set<string> {
    var names := ToRemove(files, out, pub, n, faults);
    Elements(names[FirstStuck(names, faults)..]) + Spill(files, out, pub, n, faults)
  }

  /** Which faults make the write part fail, and which of those its rollback cannot undo. */
  function WriteOutcome(files: Files, out: string, pub: string, n: Names, faults: set<Point>): Outcome {
    if Blocked(files, out, n, faults) || Blocked(files, pub, n, faults) || Place(out) in faults then WriteFailed
    else if Place(pub) !in faults then Upgraded
    else if UndoFails(files, out, faults) then RollbackFailed
    else WriteFailed
  }

  /** The directory without the hidden files that remain; a failed undo keeps the old secret key's backup. */
  function Visible(files: Files, out: string, pub: string, secretPem: Bytes, publicPem: Bytes, n: Names,
                   faults: set<Point>): Files {
    match WriteOutcome(files, out, pub, n, faults)
    case Upgraded => files[out := secretPem][pub := publicPem]
    case RollbackFailed => Stuck(files, out, secretPem, n)
    case _ => files
  }

  /** What the caller is told. */
  function Reported(files: Files, out: string, pub: string, n: Names, faults: set<Point>): Outcome {
    var names := ToRemove(files, out, pub, n, faults);
    if FirstStuck(names, faults) < |names| then CleanupFailed else WriteOutcome(files, out, pub, n, faults)
  }

  /** The checks before anything is written. */
  function Refused(files: Files, src: string, out: string, pub: string, force: bool, parentExists: string -> bool,
                   convert: Bytes -> Option<(Bytes, Bytes)>): (r: Option<Outcome>)
    ensures r.None? ==> src in files && convert(files[src]).Some?
  {
    if src == out || src == pub || out == pub then Some(PathsNotDistinct)
    else if out in files && !force then Some(OutputExists)
    else if !parentExists(out) then Some(DirectoryMissing)
    else if pub in files && !force then Some(OutputExists)
    else if !parentExists(pub) then Some(DirectoryMissing)
    else if src !in files || convert(files[src]).None? then Some(InputRejected)
    else None
  }

  // ------------------------------------------------------------------ lemmas the methods need

  lemma {:induction false} StuckAt(names: seq<string>, faults: set<Point>, i: nat)
    requires i < |names| && i <= FirstStuck(names, faults)
    ensures Unlink(names[i]) in faults <==> FirstStuck(names, faults) == i
  {
    if i > 0 {
      StuckAt(names[1..], faults, i - 1);
    }
  }

  /** After the clean-up loop exactly the files from the first stuck one on remain. */
  lemma Remains(visible: Files, before: Files, after: Files, names: seq<string>, spill: set<string>, faults: set<Point>)
    requires Adds(visible, before, Elements(names) + spill)
    requires OneOfEach(names) && Elements(names) !! spill
    requires after == before - Elements(names[..FirstStuck(names, faults)])
    ensures Adds(visible, after, Elements(names[FirstStuck(names, faults)..]) + spill)
  {
    var k := FirstStuck(names, faults);
    assert Elements(names) == Elements(names[..k]) + Elements(names[k..]) by {
      assert names == names[..k] + names[k..];
    }
    forall name | name in Elements(names[k..])
      ensures name !in Elements(names[..k])
    {
      var j :| 0 <= j < |names[k..]| && names[k..][j] == name;
      assert names[k + j] == name;
    }
    assert after - (Elements(names[k..]) + spill) == before - (Elements(names) + spill);
  }

  lemma HeldNames(files: Files, out: string, pub: string, n: Names)
    requires out != pub
    ensures var held := HeldBackups(files, out, pub, n);
            && held.Values == (if out in files then {n.backup(out)} else {})
                              + (if pub in files then {n.backup(pub)} else {})
            && (held - {out}).Values == if pub in files then {n.backup(pub)} else {}
  {
    var held := HeldBackups(files, out, pub, n);
    assert out in files ==> held[out] == n.backup(out);
    assert pub in files ==> held[pub] == n.backup(pub) && (held - {out})[pub] == n.backup(pub);
  }

  lemma ThreeSums(a: Files, b: Files, c: Files)
    ensures (a + b + c).Keys == a.Keys + b.Keys + c.Keys
    ensures forall k :: k in b && k !in c ==> (a + b + c)[k] == b[k]
  {
  }

  lemma HiddenKeys(files: Files, out: string, pub: string, secretPem: Bytes, publicPem: Bytes, n: Names)
    requires n.temp(out) != n.temp(pub) && n.backup(out) != n.backup(pub)
    ensures var hidden := Hidden(files, out, pub, secretPem, publicPem, n);
            && hidden.Keys == {n.temp(out), n.temp(pub)} + (if out in files then {n.backup(out)} else {})
                              + (if pub in files then {n.backup(pub)} else {})
            && (out in files ==> hidden[n.backup(out)] == files[out])
  {
    ThreeSums(map[n.temp(out) := secretPem, n.temp(pub) := publicPem], BackupOf(files, out, n),
              BackupOf(files, pub, n));
  }

  lemma HiddenNames(files: Files, out: string, pub: string, secretPem: Bytes, publicPem: Bytes, n: Names)
    requires Distinct(n, out, out, pub) && out != pub && NamesFree(files, out, n) && NamesFree(files, pub, n)
    ensures var hidden := Hidden(files, out, pub, secretPem, publicPem, n);
            && hidden.Keys == {n.temp(out), n.temp(pub)} + HeldBackups(files, out, pub, n).Values
            && hidden.Keys !! files.Keys && hidden.Keys !! {out, pub}
            && (out in files ==> hidden[n.backup(out)] == files[out])
  {
    HeldNames(files, out, pub, n);
    HiddenKeys(files, out, pub, secretPem, publicPem, n);
  }

  /** Placing both files and dropping what is left of the hidden ones leaves exactly the new pair. */
  lemma PlaceBoth(files: Files, hidden: Files, out: string, pub: string, t1: string, t2: string, rest: set<string>,
                  a: Bytes, b: Bytes)
    requires hidden.Keys == {t1, t2} + rest && hidden.Keys !! files.Keys && hidden.Keys !! {out, pub}
    ensures (((files + hidden) - {t1})[out := a] - {t2})[pub := b] - rest == files[out := a][pub := b]
  {
    var after := (((files + hidden) - {t1})[out := a] - {t2})[pub := b] - rest;
    assert after.Keys == files.Keys + {out, pub};
  }

  /** With both files placed, removing the backups leaves exactly the new pair. */
  lemma BothPlaced(files: Files, out: string, pub: string, secretPem: Bytes, publicPem: Bytes, n: Names)
    requires Distinct(n, out, out, pub) && out != pub && NamesFree(files, out, n) && NamesFree(files, pub, n)
    ensures var one := HalfPlaced(files, out, pub, secretPem, publicPem, n);
            Adds(files[out := secretPem][pub := publicPem], (one - {n.temp(pub)})[pub := publicPem],
                 HeldBackups(files, out, pub, n).Values)
  {
    HiddenNames(files, out, pub, secretPem, publicPem, n);
    var held := HeldBackups(files, out, pub, n).Values;
    var hidden := Hidden(files, out, pub, secretPem, publicPem, n);
    PlaceBoth(files, hidden, out, pub, n.temp(out), n.temp(pub), held, secretPem, publicPem);
    assert held <= hidden.Keys;
  }

  lemma ElementsOf(a: seq<string>, b: seq<string>)
    ensures Elements(a + b) == Elements(a) + Elements(b)
  {
  }

  lemma FewElements(x: string, y: string)
    ensures Elements([]) == {} && Elements([x]) == {x} && Elements([x, y]) == {x, y}
  {
  }

  /** The backups a run that made them all holds, in the clean-up's order. */
  lemma HeldInOrder(files: Files, out: string, pub: string, n: Names)
    requires out != pub
    ensures var held := HeldBackups(files, out, pub, n);
            && InOrder(held, out, pub) == OneBackup(files, out, n) + OneBackup(files, pub, n)
            && InOrder(held - {out}, out, pub) == OneBackup(files, pub, n)
            && Elements(OneBackup(files, out, n) + OneBackup(files, pub, n)) == held.Values
            && Elements(OneBackup(files, pub, n)) == (held - {out}).Values
  {
    HeldNames(files, out, pub, n);
    ElementsOf(OneBackup(files, out, n), OneBackup(files, pub, n));
    FewElements(n.backup(out), "");
    FewElements(n.backup(pub), "");
  }

  /** After both renames, what is to be removed are the backups. */
  lemma NewPairAdds(start: Files, now: Files, out: string, pub: string, secretPem: Bytes, publicPem: Bytes, n: Names,
                    faults: set<Point>)
    requires out != pub && !Blocked(start, out, n, faults) && !Blocked(start, pub, n, faults)
    requires Place(out) !in faults && Place(pub) !in faults
    requires Adds(start[out := secretPem][pub := publicPem], now, HeldBackups(start, out, pub, n).Values)
    ensures [] + InOrder(HeldBackups(start, out, pub, n), out, pub) == ToRemove(start, out, pub, n, faults)
    ensures Adds(Visible(start, out, pub, secretPem, publicPem, n, faults), now,
                 Elements(ToRemove(start, out, pub, n, faults)))
  {
    HeldInOrder(start, out, pub, n);
  }

  /** Staged files are the old ones and all the hidden ones. */
  lemma StagedAdds(files: Files, out: string, pub: string, secretPem: Bytes, publicPem: Bytes, n: Names)
    requires Distinct(n, out, out, pub) && out != pub && NamesFree(files, out, n) && NamesFree(files, pub, n)
    ensures Adds(files, Staged(files, out, pub, secretPem, publicPem, n),
                 Elements([n.temp(out), n.temp(pub)] + (OneBackup(files, out, n) + OneBackup(files, pub, n))))
  {
    HiddenNames(files, out, pub, secretPem, publicPem, n);
    HeldInOrder(files, out, pub, n);
    ElementsOf([n.temp(out), n.temp(pub)], OneBackup(files, out, n) + OneBackup(files, pub, n));
    FewElements(n.temp(out), n.temp(pub));
    var hidden := Hidden(files, out, pub, secretPem, publicPem, n);
    assert (files + hidden) - hidden.Keys == files;
  }

  /** The first rename failed: all hidden files are to be removed. */
  lemma NothingToUndo(start: Files, out: string, pub: string, secretPem: Bytes, publicPem: Bytes, n: Names,
                      faults: set<Point>)
    requires Distinct(n, out, out, pub) && out != pub && Place(out) in faults
    requires !Blocked(start, out, n, faults) && !Blocked(start, pub, n, faults)
    ensures WriteOutcome(start, out, pub, n, faults) == WriteFailed
    ensures [n.temp(out), n.temp(pub)] + InOrder(HeldBackups(start, out, pub, n), out, pub)
            == ToRemove(start, out, pub, n, faults)
    ensures Adds(Visible(start, out, pub, secretPem, publicPem, n, faults),
                 Staged(start, out, pub, secretPem, publicPem, n),
                 Elements(ToRemove(start, out, pub, n, faults)))
  {
    StagedAdds(start, out, pub, secretPem, publicPem, n);
    HeldInOrder(start, out, pub, n);
  }

  lemma RollbackOfOne(files: Files, out: string, pub: string, secretPem: Bytes, publicPem: Bytes, n: Names,
                      existed: set<string>, faults: set<Point>)
    requires Distinct(n, out, out, pub) && out != pub
    requires existed == set p | p in files && (p == out || p == pub)
    ensures var half := HalfPlaced(files, out, pub, secretPem, publicPem, n);
            var held := HeldBackups(files, out, pub, n);
            RollbackSpec(half, [out], held, existed, faults)
            == (if UndoFails(files, out, faults) then half else Undone(files, half, out, n), held - {out},
                !UndoFails(files, out, faults))
  {
    var half := HalfPlaced(files, out, pub, secretPem, publicPem, n);
    var held := HeldBackups(files, out, pub, n);
    assert out in files ==> half[n.backup(out)] == files[out];
    assert out !in files ==> held - {out} == held;
    assert [out][1..] == [];
  }

  /** Undoing the first placement from its backup and dropping the rest leaves the old files. */
  lemma PlaceAndRestore(files: Files, hidden: Files, out: string, t1: string, t2: string, backup: string,
                        rest: set<string>, a: Bytes)
    requires hidden.Keys == {t1, t2, backup} + rest && hidden.Keys !! files.Keys && out !in hidden
    requires out in files && backup != t1
    ensures (((files + hidden) - {t1})[out := a] - {backup})[out := files[out]] - ({t2} + rest) == files
  {
    var after := (((files + hidden) - {t1})[out := a] - {backup})[out := files[out]] - ({t2} + rest);
    assert after.Keys == files.Keys;
  }

  lemma PlaceAndRemove(files: Files, hidden: Files, out: string, t1: string, t2: string, rest: set<string>, a: Bytes)
    requires hidden.Keys == {t1, t2} + rest && hidden.Keys !! files.Keys && out !in hidden && out !in files
    ensures (((files + hidden) - {t1})[out := a] - {out}) - ({t2} + rest) == files
  {
    var after := (((files + hidden) - {t1})[out := a] - {out}) - ({t2} + rest);
    assert after.Keys == files.Keys;
  }

  lemma UndoneAdds(files: Files, out: string, pub: string, secretPem: Bytes, publicPem: Bytes, n: Names)
    requires Distinct(n, out, out, pub) && out != pub && NamesFree(files, out, n) && NamesFree(files, pub, n)
    ensures Adds(files, Undone(files, HalfPlaced(files, out, pub, secretPem, publicPem, n), out, n),
                 {n.temp(pub)} + (HeldBackups(files, out, pub, n) - {out}).Values)
  {
    HeldNames(files, out, pub, n);
    HiddenNames(files, out, pub, secretPem, publicPem, n);
    var hidden := Hidden(files, out, pub, secretPem, publicPem, n);
    var rest := (HeldBackups(files, out, pub, n) - {out}).Values;
    if out in files {
      PlaceAndRestore(files, hidden, out, n.temp(out), n.temp(pub), n.backup(out), rest, secretPem);
    } else {
      PlaceAndRemove(files, hidden, out, n.temp(out), n.temp(pub), rest, secretPem);
    }
  }

  lemma StuckIsKept(files: Files, out: string, secretPem: Bytes, n: Names)
    ensures Stuck(files, out, secretPem, n) == (files + BackupOf(files, out, n))[out := secretPem]
  {
  }

  /** Dropping all hidden files but `kept` after the first placement. */
  lemma PlaceAndKeep(files: Files, hidden: Files, kept: Files, out: string, t1: string, t2: string, rest: set<string>,
                     a: Bytes)
    requires hidden.Keys == {t1, t2} + kept.Keys + rest && hidden.Keys !! files.Keys && out !in hidden
    requires kept.Keys !! {t1, t2} + rest && forall k :: k in kept ==> kept[k] == hidden[k]
    requires t1 != t2 && t1 !in rest
    ensures Adds((files + kept)[out := a], ((files + hidden) - {t1})[out := a], {t2} + rest)
  {
    var after := ((files + hidden) - {t1})[out := a] - ({t2} + rest);
    assert after.Keys == files.Keys + kept.Keys + {out};
  }

  lemma StuckAdds(files: Files, out: string, pub: string, secretPem: Bytes, publicPem: Bytes, n: Names)
    requires Distinct(n, out, out, pub) && out != pub && NamesFree(files, out, n) && NamesFree(files, pub, n)
    ensures Adds(Stuck(files, out, secretPem, n), HalfPlaced(files, out, pub, secretPem, publicPem, n),
                 {n.temp(pub)} + (HeldBackups(files, out, pub, n) - {out}).Values)
  {
    HiddenNames(files, out, pub, secretPem, publicPem, n);
    HeldNames(files, out, pub, n);
    var kept := BackupOf(files, out, n);
    var rest := (HeldBackups(files, out, pub, n) - {out}).Values;
    StuckIsKept(files, out, secretPem, n);
    PlaceAndKeep(files, Hidden(files, out, pub, secretPem, publicPem, n), kept, out, n.temp(out), n.temp(pub), rest,
                 secretPem);
  }

  /** With only the secret key placed, a rollback that works leaves exactly the old files, and one
      that fails leaves the new secret key with the old one in its backup; either way beside the public key's
      temporary and backup. */
  lemma FirstPlaced(files: Files, out: string, pub: string, secretPem: Bytes, publicPem: Bytes, n: Names,
                    existed: set<string>, faults: set<Point>)
    requires Distinct(n, out, out, pub) && out != pub
    requires existed == set p | p in files && (p == out || p == pub)
    requires NamesFree(files, out, n) && NamesFree(files, pub, n)
    ensures var half := HalfPlaced(files, out, pub, secretPem, publicPem, n);
            var (after, left, ok) := RollbackSpec(half, [out], HeldBackups(files, out, pub, n), existed, faults);
            && (ok <==> !UndoFails(files, out, faults))
            && InOrder(left, out, pub) == OneBackup(files, pub, n)
            && Adds(if ok then files else Stuck(files, out, secretPem, n), after,
                    Elements([n.temp(pub)] + OneBackup(files, pub, n)))
  {
    RollbackOfOne(files, out, pub, secretPem, publicPem, n, existed, faults);
    UndoneAdds(files, out, pub, secretPem, publicPem, n);
    StuckAdds(files, out, pub, secretPem, publicPem, n);
    HeldInOrder(files, out, pub, n);
    ElementsOf([n.temp(pub)], OneBackup(files, pub, n));
    FewElements(n.temp(pub), "");
  }

  /** The second rename failed: the first is undone if that works. */
  lemma FirstIsUndone(start: Files, out: string, pub: string, secretPem: Bytes, publicPem: Bytes, n: Names,
                      existed: set<string>, faults: set<Point>)
    requires Distinct(n, out, out, pub) && out != pub && Place(out) !in faults && Place(pub) in faults
    requires !Blocked(start, out, n, faults) && !Blocked(start, pub, n, faults)
    requires existed == set p | p in start && (p == out || p == pub)
    ensures var half := HalfPlaced(start, out, pub, secretPem, publicPem, n);
            var (after, left, ok) := RollbackSpec(half, [out], HeldBackups(start, out, pub, n), existed, faults);
            && WriteOutcome(start, out, pub, n, faults) == (if ok then WriteFailed else RollbackFailed)
            && [n.temp(pub)] + InOrder(left, out, pub) == ToRemove(start, out, pub, n, faults)
            && Adds(Visible(start, out, pub, secretPem, publicPem, n, faults), after,
                    Elements(ToRemove(start, out, pub, n, faults)))
  {
    FirstPlaced(start, out, pub, secretPem, publicPem, n, existed, faults);
  }

  lemma AddsCompose(a: Files, b: Files, c: Files, x: set<string>, y: set<string>)
    requires Adds(a, b, x) && Adds(b, c, y)
    ensures Adds(a, c, x + y)
  {
    assert c - (x + y) == (c - y) - x;
  }

  /** The second backup failed: the first one is there, and perhaps a file that could not be removed. */
  lemma FirstBackupAdds(start: Files, now: Files, out: string, pub: string, n: Names, faults: set<Point>)
    requires out != pub && n.backup(out) != n.backup(pub)
    requires !BackupBlocked(start, out, n, faults)
    requires var first := start + BackupOf(start, out, n);
             now == if BackupSpills(start, pub, n, faults)
                    then first[n.backup(pub) := n.partial(n.backup(pub))] else first
    ensures Adds(start, now,
                 Elements(InOrder(Holding(map[], start, out, n), out, pub)) + BackupSpill(start, out, pub, n, faults))
  {
    var first := start + BackupOf(start, out, n);
    FewElements(n.backup(out), "");
    assert Adds(start, first, Elements(OneBackup(start, out, n)));
    assert Adds(first, now, BackupSpill(start, out, pub, n, faults));
    AddsCompose(start, first, now, Elements(OneBackup(start, out, n)), BackupSpill(start, out, pub, n, faults));
  }

  /** The temporaries change nothing the backups are made from. */
  lemma StagedAlike(start: Files, staged: Files, out: string, pub: string, secretPem: Bytes, publicPem: Bytes, n: Names,
                    faults: set<Point>)
    requires Distinct(n, out, out, pub) && out != pub && n.temp(out) !in start && n.temp(pub) !in start
    requires staged == start[n.temp(out) := secretPem][n.temp(pub) := publicPem]
    ensures Adds(start, staged, {n.temp(out), n.temp(pub)})
    ensures forall path :: path in {out, pub} ==>
              && (path in staged <==> path in start)
              && (BackupBlocked(staged, path, n, faults) <==> BackupBlocked(start, path, n, faults))
              && (BackupSpills(staged, path, n, faults) <==> BackupSpills(start, path, n, faults))
  {
  }

  /** A blocked backup: what is there and what is to be removed. */
  lemma BlockedByBackup(start: Files, staged: Files, now: Files, out: string, pub: string, n: Names, faults: set<Point>,
                        backups: map<string, string>)
    requires out != pub && !TempBlocked(start, out, n, faults) && !TempBlocked(start, pub, n, faults)
    requires Adds(start, staged, {n.temp(out), n.temp(pub)})
    requires out in staged <==> out in start
    requires BackupBlocked(staged, out, n, faults) <==> BackupBlocked(start, out, n, faults)
    requires BackupBlocked(start, out, n, faults) || BackupBlocked(start, pub, n, faults)
    requires BackupSpill(staged, out, pub, n, faults) == BackupSpill(start, out, pub, n, faults)
    requires backups == if BackupBlocked(staged, out, n, faults) then map[] else Holding(map[], staged, out, n)
    requires Adds(staged, now, Elements(InOrder(backups, out, pub)) + BackupSpill(staged, out, pub, n, faults))
    ensures [n.temp(out), n.temp(pub)] + InOrder(backups, out, pub) == ToRemove(start, out, pub, n, faults)
    ensures Adds(start, now, Elements(ToRemove(start, out, pub, n, faults)) + Spill(start, out, pub, n, faults))
  {
    var temps, held := [n.temp(out), n.temp(pub)], InOrder(backups, out, pub);
    var spill := BackupSpill(start, out, pub, n, faults);
    FewElements(n.temp(out), n.temp(pub));
    ElementsOf(temps, held);
    AddsCompose(start, staged, now, Elements(temps), Elements(held) + spill);
    assert Elements(temps) + (Elements(held) + spill) == Elements(temps + held) + spill;
    assert temps + held == ToRemove(start, out, pub, n, faults);
  }

  /** The first backup does not touch what the second one is made from. */
  lemma BackupsApart(files: Files, out: string, pub: string, n: Names)
    requires out != pub && n.backup(out) != n.backup(pub) && n.backup(out) != pub && n.backup(pub) != out
    ensures var first := files + BackupOf(files, out, n);
            && (pub in first <==> pub in files) && (n.backup(pub) in first <==> n.backup(pub) in files)
            && BackupOf(first, pub, n) == BackupOf(files, pub, n)
    ensures var held := Holding(map[], files, out, n);
            pub !in held && n.backup(pub) !in held.Values
  {
  }

  lemma TwoUpdates(files: Files, t1: string, t2: string, a: Bytes, b: Bytes)
    ensures files[t1 := a][t2 := b] == files + map[t1 := a, t2 := b]
  {
  }

  lemma SumsAssociate(a: Files, b: Files, c: Files, d: Files)
    ensures a + b + c + d == a + (b + c + d)
  {
    assert (a + b + c + d).Keys == (a + (b + c + d)).Keys;
  }

  lemma StagedByStages(files: Files, out: string, pub: string, secretPem: Bytes, publicPem: Bytes, n: Names)
    requires Distinct(n, out, out, pub) && out != pub
    ensures WithBackups(files[n.temp(out) := secretPem][n.temp(pub) := publicPem], out, pub, n)
         == Staged(files, out, pub, secretPem, publicPem, n)
  {
    TwoUpdates(files, n.temp(out), n.temp(pub), secretPem, publicPem);
    SumsAssociate(files, map[n.temp(out) := secretPem, n.temp(pub) := publicPem], BackupOf(files, out, n),
                  BackupOf(files, pub, n));
  }

  lemma StagedTemps(files: Files, out: string, pub: string, secretPem: Bytes, publicPem: Bytes, n: Names)
    requires Distinct(n, out, out, pub) && out != pub
    ensures var staged := Staged(files, out, pub, secretPem, publicPem, n);
            && n.temp(out) in staged && staged[n.temp(out)] == secretPem
            && n.temp(pub) in staged && staged[n.temp(pub)] == publicPem
  {
  }

  lemma RemovalsDiffer(files: Files, out: string, pub: string, n: Names, faults: set<Point>)
    requires Distinct(n, out, out, pub) && out != pub
    ensures OneOfEach(ToRemove(files, out, pub, n, faults))
    ensures Elements(ToRemove(files, out, pub, n, faults)) !! Spill(files, out, pub, n, faults)
    ensures !Blocked(files, out, n, faults) && !Blocked(files, pub, n, faults) ==>
              Spill(files, out, pub, n, faults) == {}
  {
  }

  /** A call that reports success has left nothing behind. */
  lemma NothingRemainsIfReported(files: Files, out: string, pub: string, n: Names, faults: set<Point>)
    requires Reported(files, out, pub, n, faults) == Upgraded
    ensures Leftover(files, out, pub, n, faults) == {} && WriteOutcome(files, out, pub, n, faults) == Upgraded
  {
    var names := ToRemove(files, out, pub, n, faults);
    assert names[|names|..] == [];
  }

  /** What remains are this run's hidden files, and never an output or the backup a failed undo keeps. */
  lemma LeftoverIsHidden(files: Files, out: string, pub: string, n: Names, faults: set<Point>)
    ensures Leftover(files, out, pub, n, faults) <= {n.temp(out), n.temp(pub), n.backup(out), n.backup(pub)}
  {
    var names := ToRemove(files, out, pub, n, faults);
    var k := FirstStuck(names, faults);
    assert forall name :: name in names[k..] ==> name in names;
  }

  /** Nothing remains unless a removal of a hidden file failed. */
  lemma NothingRemainsIfRemovalsWork(files: Files, out: string, pub: string, n: Names, faults: set<Point>)
    requires forall f :: f in faults ==> !f.Unlink?
    ensures Leftover(files, out, pub, n, faults) == {}
    ensures Reported(files, out, pub, n, faults) == WriteOutcome(files, out, pub, n, faults)
  {
    var names := ToRemove(files, out, pub, n, faults);
    assert names[|names|..] == [];
  }

  /** Every file but the outputs is kept, and the outputs too where they are not replaced: what a run adds are new
      files, and what it changes are `out` and `pub`. */
  lemma OtherFilesStay(start: Files, now: Files, out: string, pub: string, secretPem: Bytes, publicPem: Bytes, n: Names,
                       faults: set<Point>)
    requires Adds(Visible(start, out, pub, secretPem, publicPem, n, faults), now, Leftover(start, out, pub, n, faults))
    ensures forall p :: p in start && p != out && p != pub ==> p in now && now[p] == start[p]
  {
    var visible := Visible(start, out, pub, secretPem, publicPem, n, faults);
    forall p | p in start && p != out && p != pub
      ensures p in now && now[p] == start[p]
    {
      assert p in visible && visible[p] == start[p];
      assert p in now - Leftover(start, out, pub, n, faults);
    }
  }

  /** What the caller has to bring: three different paths, `force` if an output exists, the outputs' directories, and
      an input that converts. */
  predicate MayUpgrade(files: Files, src: string, out: string, pub: string, force: bool, parentExists: string -> bool,
                       convert: Bytes -> Option<(Bytes, Bytes)>)
  {
    && |{src, out, pub}| == 3
    && (force || {out, pub} !! files.Keys)
    && parentExists(out) && parentExists(pub)
    && src in files && convert(files[src]).Some?
  }

  /** The checks let exactly these calls through, and each error names what is wrong. */
  lemma RefusedExactlyWhen(files: Files, src: string, out: string, pub: string, force: bool,
                           parentExists: string -> bool, convert: Bytes -> Option<(Bytes, Bytes)>)
    ensures var refused := Refused(files, src, out, pub, force, parentExists, convert);
            && (refused.None? <==> MayUpgrade(files, src, out, pub, force, parentExists, convert))
            && (refused == Some(PathsNotDistinct) <==> |{src, out, pub}| < 3)
            && (refused == Some(OutputExists) ==> !force && (out in files || pub in files))
            && (refused == Some(DirectoryMissing) ==> !parentExists(out) || !parentExists(pub))
            && (refused == Some(InputRejected) <==>
                  && |{src, out, pub}| == 3 && (force || {out, pub} !! files.Keys)
                  && parentExists(out) && parentExists(pub)
                  && (src in files ==> convert(files[src]).None?))
  {
    ThreePaths(src, out, pub);
  }

  lemma ThreePaths(a: string, b: string, c: string)
    ensures |{a, b, c}| == 3 <==> a != b && a != c && b != c
    ensures |{a, b, c}| <= 3
  {
    if a != b && a != c && b != c {
      assert {a, b, c} - {a} == {b, c} && {b, c} - {b} == {c};
    } else {
      assert {a, b, c} == {a, b} || {a, b, c} == {a, c};
      assert |{a, b}| <= 2 && |{a, c}| <= 2;
    }
  }

  /** With free hidden names and no failing operation the files are written. */
  lemma NoFaultNoFailure(files: Files, out: string, pub: string, n: Names)
    requires NamesFree(files, out, n) && NamesFree(files, pub, n)
    ensures Reported(files, out, pub, n, {}) == Upgraded
  {
    NothingRemainsIfRemovalsWork(files, out, pub, n, {});
  }

  // ------------------------------------------------------------------ the file operations

  class Directory {
    var files: Files

    constructor (files: Files)
      ensures this.files == files
    {
      this.files := files;
    }

    /** Create a file that must not exist and write it; a failed write removes it again, if that works. */
    method WriteNew(name: string, content: Bytes, partial: Bytes, createFails: bool, writeFails: bool,
                    unlinkFails: bool)
      returns (ok: bool)
      modifies this
      ensures ok <==> name !in old(files) && !createFails && !writeFails
      ensures files == if ok then old(files)[name := content]
                       else if name !in old(files) && !createFails && unlinkFails then old(files)[name := partial]
                       else old(files)
    {
      if name in files || createFails {
        return false;
      }
      if writeFails {
        files := files[name := partial];
        if !unlinkFails {
          files := files - {name};
          assert files == old(files);
        }
        return false;
      }
      files := files[name := content];
      ok := true;
    }

    /** `os.replace`: atomic, or it fails with nothing changed. */
    method Replace(from: string, to: string, fails: bool) returns (ok: bool)
      requires from != to
      modifies this
      ensures ok <==> from in old(files) && !fails
      ensures files == if ok then (old(files) - {from})[to := old(files)[from]] else old(files)
    {
      if fails || from !in files {
        return false;
      }
      files := (files - {from})[to := files[from]];
      ok := true;
    }

    /** The clean-up loop: remove the listed files in order; the first removal that fails ends it. */
    method RemoveAll(names: seq<string>, faults: set<Point>) returns (ok: bool)
      modifies this
      ensures ok <==> FirstStuck(names, faults) == |names|
      ensures files == old(files) - Elements(names[..FirstStuck(names, faults)])
    {
      assert old(files) - Elements([]) == old(files);
      for i := 0 to |names|
        invariant i <= FirstStuck(names, faults)
        invariant files == old(files) - Elements(names[..i])
      {
        StuckAt(names, faults, i);
        if Unlink(names[i]) in faults {
          return false;
        }
        assert Elements(names[..i + 1]) == Elements(names[..i]) + {names[i]};
        files := files - {names[i]};
      }
      ok := true;
    }

    method Rollback(placed: seq<string>, backups: map<string, string>, existed: set<string>, faults: set<Point>)
      returns (left: map<string, string>, ok: bool)
      requires forall p :: p in backups ==> backups[p] != p
      modifies this
      ensures (files, left, ok) == RollbackSpec(old(files), placed, backups, existed, faults)
    {
      var i := 0;
      left, ok := backups, true;
      assert placed[0..] == placed;
      while i < |placed|
        invariant 0 <= i <= |placed| && ok
        invariant forall p :: p in left ==> left[p] != p
        invariant RollbackSpec(files, placed[i..], left, existed, faults)
               == RollbackSpec(old(files), placed, backups, existed, faults)
      {
        var path := placed[i];
        assert placed[i..][1..] == placed[i + 1..];
        if path in left {
          var backup := left[path];
          left := left - {path};
          ok := Replace(backup, path, Restore(path) in faults);
        } else if path !in existed {
          if Remove(path) in faults {
            ok := false;
          } else {
            files := files - {path};
          }
        }
        if !ok {
          return;
        }
        i := i + 1;
      }
    }

    /** Write the temporary of one path. */
    method Stage(path: string, pem: Bytes, n: Names, faults: set<Point>, temps: seq<string>)
      returns (ok: bool, made: seq<string>)
      modifies this
      ensures ok <==> !TempBlocked(old(files), path, n, faults)
      ensures made == if ok then temps + [n.temp(path)] else temps
      ensures files == if ok then old(files)[n.temp(path) := pem]
                       else if TempSpills(old(files), path, n, faults)
                       then old(files)[n.temp(path) := n.partial(n.temp(path))]
                       else old(files)
    {
      var name := n.temp(path);
      ok := WriteNew(name, pem, n.partial(name), CreateTemp(path) in faults, WriteTemp(path) in faults,
                     Unlink(name) in faults);
      made := if ok then temps + [name] else temps;
    }

    method StageBoth(out: string, pub: string, secretPem: Bytes, publicPem: Bytes, n: Names, faults: set<Point>)
      returns (temps: seq<string>, ok: bool)
      requires n.temp(out) != n.temp(pub)
      modifies this
      ensures ok <==> !TempBlocked(old(files), out, n, faults) && !TempBlocked(old(files), pub, n, faults)
      ensures ok ==> temps == [n.temp(out), n.temp(pub)]
                     && files == old(files)[n.temp(out) := secretPem][n.temp(pub) := publicPem]
      ensures !ok ==> temps == if TempBlocked(old(files), out, n, faults) then [] else [n.temp(out)]
      ensures !ok ==> Adds(old(files), files, Elements(temps) + TempSpill(old(files), out, pub, n, faults))
    {
      ghost var start := files;
      ok, temps := Stage(out, secretPem, n, faults, []);
      if !ok {
        return;
      }
      ok, temps := Stage(pub, publicPem, n, faults, temps);
      assert Elements([n.temp(out)]) == {n.temp(out)};
    }

    method BackUp(path: string, n: Names, faults: set<Point>, backups: map<string, string>, existed: set<string>)
      returns (ok: bool, held: map<string, string>)
      requires path in existed <==> path in files
      modifies this
      ensures ok <==> !BackupBlocked(old(files), path, n, faults)
      ensures ok ==> files == old(files) + BackupOf(old(files), path, n)
      ensures ok ==> held == Holding(backups, old(files), path, n)
      ensures !ok ==> held == backups
      ensures !ok ==> files == if BackupSpills(old(files), path, n, faults)
                               then old(files)[n.backup(path) := n.partial(n.backup(path))] else old(files)
    {
      ok, held := true, backups;
      if path in existed {
        var name := n.backup(path);
        ok := WriteNew(name, files[path], n.partial(name),
                       CreateBackup(path) in faults, WriteBackup(path) in faults, Unlink(name) in faults);
        if ok {
          held := backups[path := name];
        }
      }
    }

    /** Both backups, of what exists. */
    method BackUpBoth(out: string, pub: string, n: Names, faults: set<Point>, existed: set<string>)
      returns (backups: map<string, string>, ok: bool)
      requires out != pub && n.backup(out) != n.backup(pub) && n.backup(out) != pub && n.backup(pub) != out
      requires existed == set p | p in files && (p == out || p == pub)
      modifies this
      ensures ok <==> !BackupBlocked(old(files), out, n, faults) && !BackupBlocked(old(files), pub, n, faults)
      ensures ok ==> files == WithBackups(old(files), out, pub, n) && backups == HeldBackups(old(files), out, pub, n)
      ensures !ok ==>
                backups == if BackupBlocked(old(files), out, n, faults) then map[] else Holding(map[], old(files),
                        out, n)
      ensures !ok ==>
                Adds(old(files), files,
                     Elements(InOrder(backups, out, pub)) + BackupSpill(old(files), out, pub, n, faults))
    {
      ghost var start := files;
      ok, backups := BackUp(out, n, faults, map[], existed);
      if !ok {
        return;
      }
      BackupsApart(start, out, pub, n);
      ok, backups := BackUp(pub, n, faults, backups, existed);
      if !ok {
        FirstBackupAdds(start, files, out, pub, n, faults);
      }
    }

    /** Everything before the first rename: both temporaries, then both backups. Where it fails, the files are the
        old ones, what `temps` and `backups` list, and at most one file that could not even be removed. */
    method Prepare(out: string, pub: string, secretPem: Bytes, publicPem: Bytes, n: Names, faults: set<Point>,
                   existed: set<string>)
      returns (temps: seq<string>, backups: map<string, string>, ok: bool)
      requires Distinct(n, out, out, pub) && out != pub
      requires existed == set p | p in files && (p == out || p == pub)
      modifies this
      ensures ok <==> !Blocked(old(files), out, n, faults) && !Blocked(old(files), pub, n, faults)
      ensures ok ==> temps == [n.temp(out), n.temp(pub)]
      ensures ok ==> files == Staged(old(files), out, pub, secretPem, publicPem, n)
      ensures ok ==> backups == HeldBackups(old(files), out, pub, n)
      ensures !ok ==> temps + InOrder(backups, out, pub) == ToRemove(old(files), out, pub, n, faults)
      ensures !ok ==>
                Adds(old(files), files,
                     Elements(ToRemove(old(files), out, pub, n, faults)) + Spill(old(files), out, pub, n, faults))
    {
      ghost var start := files;
      backups := map[];
      temps, ok := StageBoth(out, pub, secretPem, publicPem, n, faults);
      if !ok {
        return;
      }
      ghost var staged := files;
      StagedAlike(start, staged, out, pub, secretPem, publicPem, n, faults);
      backups, ok := BackUpBoth(out, pub, n, faults, existed);
      if ok {
        StagedByStages(start, out, pub, secretPem, publicPem, n);
      } else {
        BlockedByBackup(start, staged, files, out, pub, n, faults, backups);
      }
    }

    /** The two renames, on staged files. */
    method PlaceFiles(out: string, pub: string, secretPem: Bytes, publicPem: Bytes, n: Names, faults: set<Point>,
                      ghost start: Files)
      returns (temps: seq<string>, placed: seq<string>, ok: bool)
      requires Distinct(n, out, out, pub) && out != pub && NamesFree(start, out, n) && NamesFree(start, pub, n)
      requires files == Staged(start, out, pub, secretPem, publicPem, n)
      modifies this
      ensures ok <==> Place(out) !in faults && Place(pub) !in faults
      ensures Place(out) in faults ==> temps == [n.temp(out), n.temp(pub)] && placed == [] && files == old(files)
      ensures Place(out) !in faults && !ok ==>
                temps == [n.temp(pub)] && placed == [out]
                    && files == HalfPlaced(start, out, pub, secretPem, publicPem, n)
      ensures ok ==> temps == []
      ensures ok ==>
                Adds(start[out := secretPem][pub := publicPem], files, HeldBackups(start, out, pub, n).Values)
    {
      StagedTemps(start, out, pub, secretPem, publicPem, n);
      temps, placed := [n.temp(out), n.temp(pub)], [];
      ok := Replace(n.temp(out), out, Place(out) in faults);
      if ok {
        temps := [n.temp(pub)];
        placed := [out];
        ok := Replace(n.temp(pub), pub, Place(pub) in faults);
        if ok {
          temps := [];
          BothPlaced(start, out, pub, secretPem, publicPem, n);
        }
      }
    }

    /** The error branch: put back what was placed. */
    method Undo(temps: seq<string>, placed: seq<string>, out: string, pub: string, secretPem: Bytes, publicPem: Bytes,
                n: Names, faults: set<Point>, existed: set<string>, held: map<string, string>, ghost start: Files)
      returns (r: Outcome, backups: map<string, string>)
      requires Distinct(n, out, out, pub) && out != pub
      requires !Blocked(start, out, n, faults) && !Blocked(start, pub, n, faults)
      requires existed == set p | p in start && (p == out || p == pub)
      requires held == HeldBackups(start, out, pub, n) && (Place(out) in faults || Place(pub) in faults)
      requires Place(out) in faults ==>
                 temps == [n.temp(out), n.temp(pub)] && placed == []
                     && files == Staged(start, out, pub, secretPem, publicPem, n)
      requires Place(out) !in faults ==>
                 temps == [n.temp(pub)] && placed == [out]
                     && files == HalfPlaced(start, out, pub, secretPem, publicPem, n)
      modifies this
      ensures r == WriteOutcome(start, out, pub, n, faults)
      ensures temps + InOrder(backups, out, pub) == ToRemove(start, out, pub, n, faults)
      ensures Adds(Visible(start, out, pub, secretPem, publicPem, n, faults), files,
                   Elements(ToRemove(start, out, pub, n, faults)))
    {
      if placed == [] {
        NothingToUndo(start, out, pub, secretPem, publicPem, n, faults);
      } else {
        FirstIsUndone(start, out, pub, secretPem, publicPem, n, existed, faults);
      }
      var undone;
      backups, undone := Rollback(placed, held, existed, faults);
      r := if undone then WriteFailed else RollbackFailed;
    }

    /** From staged files on: the renames and, if one fails, the rollback. `names` is what is then to be removed. */
    method Install(out: string, pub: string, secretPem: Bytes, publicPem: Bytes, n: Names, faults: set<Point>,
                   existed: set<string>, held: map<string, string>, ghost start: Files)
      returns (r: Outcome, names: seq<string>)
      requires Distinct(n, out, out, pub) && out != pub
      requires !Blocked(start, out, n, faults) && !Blocked(start, pub, n, faults)
      requires existed == set p | p in start && (p == out || p == pub)
      requires files == Staged(start, out, pub, secretPem, publicPem, n) && held == HeldBackups(start, out, pub, n)
      modifies this
      ensures r == WriteOutcome(start, out, pub, n, faults)
      ensures names == ToRemove(start, out, pub, n, faults)
      ensures Adds(Visible(start, out, pub, secretPem, publicPem, n, faults), files, Elements(names))
    {
      var temps, placed, ok := PlaceFiles(out, pub, secretPem, publicPem, n, faults, start);
      var backups := held;
      r := Upgraded;
      if ok {
        NewPairAdds(start, files, out, pub, secretPem, publicPem, n, faults);
      } else {
        r, backups := Undo(temps, placed, out, pub, secretPem, publicPem, n, faults, existed, held, start);
      }
      names := temps + InOrder(backups, out, pub);
    }

    /** The write part: `temps`, `placed` and `backups` say at every point what must be undone. For every set of
        failing operations, with the hidden files that remain set aside the directory is the old one with both
        outputs new, the old one exactly, or, if the undo fails too, the old one with the new secret key and the
        old secret key in its backup; and exactly the files of `Leftover` remain. */
    method WriteBoth(out: string, pub: string, secretPem: Bytes, publicPem: Bytes, n: Names, faults: set<Point>)
      returns (r: Outcome)
      requires Distinct(n, out, out, pub) && out != pub
      modifies this
      ensures r == Reported(old(files), out, pub, n, faults)
      ensures Adds(Visible(old(files), out, pub, secretPem, publicPem, n, faults), files,
                   Leftover(old(files), out, pub, n, faults))
    {
      ghost var start := files;
      var existed := set p | p in files && (p == out || p == pub);
      var temps, backups, ok := Prepare(out, pub, secretPem, publicPem, n, faults, existed);
      var names := temps + InOrder(backups, out, pub);
      r := WriteFailed;
      if ok {
        r, names := Install(out, pub, secretPem, publicPem, n, faults, existed, backups, start);
      }
      ghost var before := files;
      RemovalsDiffer(start, out, pub, n, faults);
      assert Adds(Visible(start, out, pub, secretPem, publicPem, n, faults), before,
                  Elements(names) + Spill(start, out, pub, n, faults));
      var cleaned := RemoveAll(names, faults);
      Remains(Visible(start, out, pub, secretPem, publicPem, n, faults), before, files, names,
              Spill(start, out, pub, n, faults), faults);
      if !cleaned {
        r := CleanupFailed;
      }
    }

    /** `upgrade_key_file` after argument handling; `convert` stands for loading the classical key,
        upgrading it and checking the result, and gives the secret and the public PEM. */
    method UpgradeKeyFile(src: string, out: string, pub: string, force: bool, parentExists: string -> bool,
                          convert: Bytes -> Option<(Bytes, Bytes)>, n: Names, faults: set<Point>)
      returns (r: Outcome)
      requires Distinct(n, src, out, pub)
      modifies this
      ensures var refused := Refused(old(files), src, out, pub, force, parentExists, convert);
              if refused.Some? then r == refused.value && files == old(files)
              else
                var (secretPem, publicPem) := convert(old(files)[src]).value;
                && r == Reported(old(files), out, pub, n, faults)
                && Adds(Visible(old(files), out, pub, secretPem, publicPem, n, faults), files,
                        Leftover(old(files), out, pub, n, faults))
      ensures forall p :: p in old(files) && p != out && p != pub ==> p in files && files[p] == old(files)[p]
      ensures src in old(files) ==> src in files && files[src] == old(files)[src]
      ensures !force ==> forall p :: p in old(files) ==> p in files && files[p] == old(files)[p]
      ensures !MayUpgrade(old(files), src, out, pub, force, parentExists, convert) ==>
                files == old(files) && r in {PathsNotDistinct, OutputExists, DirectoryMissing, InputRejected}
      ensures r == Upgraded ==> MayUpgrade(old(files), src, out, pub, force, parentExists, convert)
      ensures faults == {} && NamesFree(old(files), out, n) && NamesFree(old(files), pub, n) ==>
                (r == Upgraded <==> MayUpgrade(old(files), src, out, pub, force, parentExists, convert))
      ensures r == Upgraded ==>
                files == old(files)[out := convert(old(files)[src]).value.0][pub := convert(old(files)[src]).value.1]
    {
      RefusedExactlyWhen(files, src, out, pub, force, parentExists, convert);
      if src == out || src == pub || out == pub {
        return PathsNotDistinct;
      }
      if out in files && !force {
        return OutputExists;
      }
      if !parentExists(out) {
        return DirectoryMissing;
      }
      if pub in files && !force {
        return OutputExists;
      }
      if !parentExists(pub) {
        return DirectoryMissing;
      }
      if src !in files || convert(files[src]).None? {
        return InputRejected;
      }
      var (secretPem, publicPem) := convert(files[src]).value;
      ghost var start := files;
      r := WriteBoth(out, pub, secretPem, publicPem, n, faults);
      OtherFilesStay(start, files, out, pub, secretPem, publicPem, n, faults);
      if faults == {} && NamesFree(start, out, n) && NamesFree(start, pub, n) {
        NoFaultNoFailure(start, out, pub, n);
      }
      if r == Upgraded {
        NothingRemainsIfReported(start, out, pub, n, faults);
      }
    }
  }

  // ------------------------------------------------------------------ what follows for a caller

  /** One failing operation, whichever it is, never gets past the rollback: that takes a failing rename of
      the public key and a failing undo of the secret key in the same run. */
  lemma OneFaultIsUndone(files: Files, out: string, pub: string, n: Names, faults: set<Point>)
    ensures WriteOutcome(files, out, pub, n, faults) == RollbackFailed ==>
              Place(pub) in faults && (if out in files then Restore(out) else Remove(out)) in faults && |faults| >= 2
    ensures (forall p, q :: p in faults && q in faults ==> p == q) ==>
              WriteOutcome(files, out, pub, n, faults) != RollbackFailed
  {
    if Place(pub) in faults && UndoFails(files, out, faults) {
      var undo := if out in files then Restore(out) else Remove(out);
      assert faults == {Place(pub), undo} + (faults - {Place(pub), undo});
      assert |{Place(pub), undo}| == 2;
    }
  }

  lemma {:induction false} StuckOnlyIfListed(names: seq<string>, hidden: string)
    ensures FirstStuck(names, {Unlink(hidden)}) < |names| <==> hidden in names
    ensures Elements(names[FirstStuck(names, {Unlink(hidden)})..]) != {} <==> hidden in names
  {
    if names != [] && names[0] != hidden {
      StuckOnlyIfListed(names[1..], hidden);
      assert names[1..][FirstStuck(names[1..], {Unlink(hidden)})..] == names[FirstStuck(names, {Unlink(hidden)})..];
    } else if names != [] {
      assert names[0..] == names;
      assert names[0] in Elements(names);
    }
  }

  /** One failing operation leaves no hidden file either, unless it is the removal of a backup after both renames:
      then both outputs are new, the call still raises, and backups remain. */
  lemma OneFaultLeavesBackupsAtMost(files: Files, out: string, pub: string, n: Names, fault: Point)
    requires Distinct(n, out, out, pub) && NamesFree(files, out, n) && NamesFree(files, pub, n)
    ensures var left := Leftover(files, out, pub, n, {fault});
            left != {} <==> || (out in files && fault == Unlink(n.backup(out)))
                            || (pub in files && fault == Unlink(n.backup(pub)))
    ensures Leftover(files, out, pub, n, {fault}) != {} ==>
              && WriteOutcome(files, out, pub, n, {fault}) == Upgraded
                  && Reported(files, out, pub, n, {fault}) == CleanupFailed
              && Leftover(files, out, pub, n, {fault}) <= Elements(OneBackup(files, out, n) + OneBackup(files, pub, n))
  {
    var names := ToRemove(files, out, pub, n, {fault});
    var k := FirstStuck(names, {fault});
    if !fault.Unlink? {
      NothingRemainsIfRemovalsWork(files, out, pub, n, {fault});
    } else {
      assert names == OneBackup(files, out, n) + OneBackup(files, pub, n);
      assert Spill(files, out, pub, n, {fault}) == {};
      StuckOnlyIfListed(names, fault.hidden);
      assert forall name :: name in names[k..] ==> name in names;
    }
  }
}
