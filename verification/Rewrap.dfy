/**
 The re-wrap run: every envelope under a source directory is moved from one recipient key to another,
 into a separate directory or in place. Paths are resolved component lists; randomness and input/output
 errors are parameters of a run.
 */
module Rewrap {
  import opened Common
  import E = Envelope

  type Path = seq<string>

  type Files = map<Path, Bytes>

  datatype ExpectedAad = Carried | Fixed(aad: Bytes) | PerFile(aadOf: Path -> Option<Bytes>)

  datatype Config = Config(src: Path, dst: Path, oldSecret: E.SecretKey, newPublic: E.PublicKey,
                           newSecret: Option<E.SecretKey>, expectedAad: ExpectedAad, inPlace: bool, dryRun: bool)

  /** What the code calls: the envelope primitives, the codecs and SHA-256. */
  datatype Tools = Tools(crypto: E.Crypto, codec: E.Codec, hash: Bytes -> Bytes)

  /** What one run meets for each relative path: its random draw and its input/output errors. */
  datatype Env = Env(seed: Path -> nat, readFails: Path -> bool, targetFails: Path -> bool, writeFails: Path -> bool)

  datatype Status = Rewrapped | Skipped | AlreadyMigrated | WouldRewrap | Failed

  datatype Reason = NotAnEnvelope | TargetIsNotACopy | Mismatch | Raised

  datatype Item = Item(name: Path, status: Status, fromAlgorithm: Option<string>, toAlgorithm: Option<string>,
                       verified: Option<bool>, error: Option<Reason>)

  /** What handling one file comes to: the bytes put at its target, if any, and its report item. */
  datatype Outcome = Outcome(write: Option<Bytes>, item: Item)

  function Source(cfg: Config, rel: Path): Path {
    cfg.src + rel
  }

  function Target(cfg: Config, rel: Path): Path {
    (if cfg.inPlace then cfg.src else cfg.dst) + rel
  }

  /** Temporary files of an earlier run: a name that starts with a dot and ends in `.tmp`. */
  predicate Hidden(rel: Path) {
    && |rel| > 0
    && var name := rel[|rel| - 1];
    |name| >= 4 && name[0] == '.' && name[|name| - 4..] == ".tmp"
  }

  function AadFor(cfg: Config, rel: Path, sealed: E.Message): Option<Bytes> {
    match cfg.expectedAad
    case Carried => Some(sealed.aad)
    case Fixed(aad) => Some(aad)
    case PerFile(aadOf) => aadOf(rel)
  }

  function RaisedItem(item: Item): Item {
    item.(status := Failed, error := Some(Raised))
  }

  function NewItem(rel: Path): Item {
    Item(rel, Skipped, None, None, None, None)
  }

  /** The check of a moved copy: None is an exception, Some(None) means no check was asked for. */
  function Check(t: Tools, cfg: Config, sealed: E.Message, moved: E.Message, aad: Bytes): Option<Option<bool>> {
    match cfg.newSecret
    case None => Some(None)
    case Some(sk) =>
      match (E.Open(t.crypto, sealed, cfg.oldSecret, aad), E.Open(t.crypto, moved, sk, moved.aad))
      case (Some(original), Some(again)) => Some(Some(t.hash(original) == t.hash(again)))
      case _ => None
  }

  /** An existing target counts as migrated when it parses, has the new algorithm and, with the new secret
      key at hand, opens under it. */
  predicate IsCopy(t: Tools, cfg: Config, existing: Bytes, aad: Bytes) {
    match E.Parse(t.codec, existing)
    case None => false
    case Some((m, _)) =>
      && m.algorithm == cfg.newPublic.algorithm
      && (cfg.newSecret.Some? ==> E.Open(t.crypto, m, cfg.newSecret.value, aad).Some?)
  }

  predicate UnderNewKey(t: Tools, cfg: Config, sealed: E.Message, aad: Bytes) {
    cfg.newSecret.Some? && E.Open(t.crypto, sealed, cfg.newSecret.value, aad).Some?
  }

  function MoveOutcome(t: Tools, cfg: Config, env: Env, item: Item, sealed: E.Message, encoding: E.Encoding,
                       aad: Bytes): Outcome {
    match E.Rewrap(t.crypto, sealed, cfg.oldSecret, cfg.newPublic, aad, env.seed(item.name))
    case None => Outcome(None, RaisedItem(item))
    case Some(moved) =>
      var named := item.(toAlgorithm := Some(moved.algorithm));
      match Check(t, cfg, sealed, moved, aad)
      case None => Outcome(None, RaisedItem(named))
      case Some(verified) =>
        var checked := named.(verified := verified);
        if verified == Some(false) then Outcome(None, checked.(status := Failed, error := Some(Mismatch)))
        else if cfg.dryRun then Outcome(None, checked.(status := WouldRewrap))
        else if env.writeFails(item.name) then Outcome(None, RaisedItem(checked))
        else Outcome(Some(E.Encode(t.codec, moved, encoding)), checked.(status := Rewrapped))
  }

  /** The outcome for one file, given the bytes at its source and at its target. */
  function Process(t: Tools, cfg: Config, env: Env, rel: Path, source: Option<Bytes>, target: Option<Bytes>): Outcome {
    var item := NewItem(rel);
    if env.readFails(rel) || source.None? then Outcome(None, RaisedItem(item))
    else match E.Parse(t.codec, source.value)
      case None => Outcome(None, item.(error := Some(NotAnEnvelope)))
      case Some((sealed, encoding)) =>
        var named := item.(fromAlgorithm := Some(sealed.algorithm));
        match AadFor(cfg, rel, sealed)
        case None => Outcome(None, RaisedItem(named))
        case Some(aad) =>
          if cfg.inPlace && UnderNewKey(t, cfg, sealed, aad) then
            Outcome(None, named.(status := AlreadyMigrated, toAlgorithm := Some(sealed.algorithm)))
          else if !cfg.inPlace && target.Some? then
            if env.targetFails(rel) then Outcome(None, RaisedItem(named))
            else if IsCopy(t, cfg, target.value, aad) then
              Outcome(None, named.(status := AlreadyMigrated, toAlgorithm := Some(cfg.newPublic.algorithm)))
            else Outcome(None, named.(status := Failed, error := Some(TargetIsNotACopy)))
          else MoveOutcome(t, cfg, env, named, sealed, encoding, aad)
  }

  function At(files: Files, p: Path): Option<Bytes> {
    if p in files then Some(files[p]) else None
  }

  function OutcomeOf(t: Tools, cfg: Config, env: Env, files: Files, rel: Path): Outcome {
    Process(t, cfg, env, rel, At(files, Source(cfg, rel)), At(files, Target(cfg, rel)))
  }

  // ------------------------------------------------------------------ one run

  /** What the directory listing gives: each file once, each one there. */
  ghost predicate Listed(cfg: Config, files: Files, names: seq<Path>) {
    && (forall i, j :: 0 <= i < j < |names| ==> names[i] != names[j])
    && (forall r :: r in names ==> Source(cfg, r) in files)
  }

  ghost predicate Writes(t: Tools, cfg: Config, env: Env, files: Files, r: Path) {
    !Hidden(r) && OutcomeOf(t, cfg, env, files, r).write.Some?
  }

  /** The run's effect: each file's target holds what the file's outcome on the original directory put
      there, and nothing else has changed. */
  ghost predicate IsResult(t: Tools, cfg: Config, env: Env, files: Files, names: seq<Path>, result: Files) {
    && (forall r :: r in names && Writes(t, cfg, env, files, r) ==>
          At(result, Target(cfg, r)) == OutcomeOf(t, cfg, env, files, r).write)
    && (forall p :: (forall r :: r in names && Writes(t, cfg, env, files, r) ==> Target(cfg, r) != p) ==>
        At(result, p) == At(files, p))
  }

  function Items(t: Tools, cfg: Config, env: Env, files: Files, names: seq<Path>): seq<Item> {
    if names == [] then []
    else
      var last := names[|names| - 1];
      Items(t, cfg, env, files, names[..|names| - 1])
      + (if Hidden(last) then [] else [OutcomeOf(t, cfg, env, files, last).item])
  }

  lemma TargetInjective(cfg: Config, a: Path, b: Path)
    requires Target(cfg, a) == Target(cfg, b)
    ensures a == b
  {
    var root := if cfg.inPlace then cfg.src else cfg.dst;
    assert (root + a)[|root|..] == a && (root + b)[|root|..] == b;
  }

  /** With a separate destination a file that exists is never overwritten or removed. */
  lemma NonDestructive(t: Tools, cfg: Config, env: Env, files: Files, names: seq<Path>, result: Files, p: Path)
    requires IsResult(t, cfg, env, files, names, result)
    requires !cfg.inPlace && p in files
    ensures p in result && result[p] == files[p]
  {
    forall r | r in names && Writes(t, cfg, env, files, r)
      ensures Target(cfg, r) != p
    {
    }
    assert At(result, p) == At(files, p);
  }

  /** An unhandled file still looks as it did when the run began. */
  lemma LaterFilesUntouched(t: Tools, cfg: Config, env: Env, files: Files, names: seq<Path>, i: nat, now: Files)
    requires Listed(cfg, files, names) && i < |names|
    requires IsResult(t, cfg, env, files, names[..i], now)
    ensures At(now, Source(cfg, names[i])) == At(files, Source(cfg, names[i]))
    ensures At(now, Target(cfg, names[i])) == At(files, Target(cfg, names[i]))
  {
    forall r | r in names[..i]
      ensures Target(cfg, r) != Target(cfg, names[i])
    {
      if Target(cfg, r) == Target(cfg, names[i]) {
        TargetInjective(cfg, r, names[i]);
      }
    }
    if !cfg.inPlace {
      NonDestructive(t, cfg, env, files, names[..i], now, Source(cfg, names[i]));
    }
  }

  lemma OneMore(t: Tools, cfg: Config, env: Env, files: Files, names: seq<Path>, i: nat, now: Files, next: Files)
    requires Listed(cfg, files, names) && i < |names|
    requires IsResult(t, cfg, env, files, names[..i], now)
    requires next == if Writes(t, cfg, env, files, names[i])
                     then now[Target(cfg, names[i]) := OutcomeOf(t, cfg, env, files, names[i]).write.value] else now
    ensures IsResult(t, cfg, env, files, names[..i + 1], next)
  {
    assert names[..i + 1] == names[..i] + [names[i]];
    forall r | r in names[..i + 1] && Writes(t, cfg, env, files, r)
      ensures At(next, Target(cfg, r)) == OutcomeOf(t, cfg, env, files, r).write
    {
      if r != names[i] && Target(cfg, r) == Target(cfg, names[i]) {
        TargetInjective(cfg, r, names[i]);
      }
    }
    forall p | forall r :: r in names[..i + 1] && Writes(t, cfg, env, files, r) ==> Target(cfg, r) != p
      ensures At(next, p) == At(files, p)
    {
      assert names[i] in names[..i + 1];
    }
  }

  datatype ArgumentError =
    | SourceIsNotADirectory
    | DestinationWithInPlace
    | DestinationMissing
    | DestinationIsSource
    | DestinationInsideSource

  /** The argument checks, in the code's order. */
  function CheckArguments(sourceIsDirectory: bool, src: Path, destination: Option<Path>,
                          inPlace: bool): Option<ArgumentError> {
    if !sourceIsDirectory then Some(SourceIsNotADirectory)
    else if inPlace then
      if destination.Some? && destination.value != src then Some(DestinationWithInPlace) else None
    else match destination
      case None => Some(DestinationMissing)
      case Some(dst) =>
        if dst == src then Some(DestinationIsSource)
        else if src <= dst then Some(DestinationInsideSource)
        else None
  }

  class Tree {
    var files: Files

    /** One pass of the loop body: the item is filled in step by step, and at most the target is written. */
    method RewrapFile(t: Tools, cfg: Config, env: Env, rel: Path) returns (item: Item)
      modifies this
      ensures item == OutcomeOf(t, cfg, env, old(files), rel).item
      ensures files == if OutcomeOf(t, cfg, env, old(files), rel).write.Some?
                       then old(files)[Target(cfg, rel) := OutcomeOf(t, cfg, env, old(files), rel).write.value]
                       else old(files)
    {
      item := NewItem(rel);
      if env.readFails(rel) || Source(cfg, rel) !in files {
        item := RaisedItem(item);
        return;
      }
      var parsed := E.Parse(t.codec, files[Source(cfg, rel)]);
      if parsed.None? {
        item := item.(error := Some(NotAnEnvelope));
        return;
      }
      var (sealed, encoding) := parsed.value;
      item := item.(fromAlgorithm := Some(sealed.algorithm));
      var aad := AadFor(cfg, rel, sealed);
      if aad.None? {
        item := RaisedItem(item);
        return;
      }
      if cfg.inPlace && cfg.newSecret.Some? {
        var underNewKey := E.Open(t.crypto, sealed, cfg.newSecret.value, aad.value).Some?;
        if underNewKey {
          item := item.(status := AlreadyMigrated, toAlgorithm := Some(sealed.algorithm));
          return;
        }
      }
      if !cfg.inPlace && Target(cfg, rel) in files {
        if env.targetFails(rel) {
          item := RaisedItem(item);
          return;
        }
        var existing := E.Parse(t.codec, files[Target(cfg, rel)]);
        var ok := existing.Some? && existing.value.0.algorithm == cfg.newPublic.algorithm;
        if ok && cfg.newSecret.Some? {
          ok := E.Open(t.crypto, existing.value.0, cfg.newSecret.value, aad.value).Some?;
        }
        if ok {
          item := item.(status := AlreadyMigrated, toAlgorithm := Some(cfg.newPublic.algorithm));
        } else {
          item := item.(status := Failed, error := Some(TargetIsNotACopy));
        }
        return;
      }
      item := MoveFile(t, cfg, env, item, sealed, encoding, aad.value);
    }

    /** The second half of the loop body: re-wrap, check, write. */
    method MoveFile(t: Tools, cfg: Config, env: Env, start: Item, sealed: E.Message, encoding: E.Encoding, aad: Bytes)
      returns (item: Item)
      requires start.verified.None?
      modifies this
      ensures var o := MoveOutcome(t, cfg, env, start, sealed, encoding, aad);
              && item == o.item
              && files == if o.write.Some? then old(files)[Target(cfg, start.name) := o.write.value] else old(files)
    {
      item := start;
      var rewrapped := E.Rewrap(t.crypto, sealed, cfg.oldSecret, cfg.newPublic, aad, env.seed(item.name));
      if rewrapped.None? {
        item := RaisedItem(item);
        return;
      }
      var moved := rewrapped.value;
      item := item.(toAlgorithm := Some(moved.algorithm));
      if cfg.newSecret.Some? {
        var original := E.Open(t.crypto, sealed, cfg.oldSecret, aad);
        var again := E.Open(t.crypto, moved, cfg.newSecret.value, moved.aad);
        if original.None? || again.None? {
          item := RaisedItem(item);
          return;
        }
        item := item.(verified := Some(t.hash(original.value) == t.hash(again.value)));
        if item.verified == Some(false) {
          item := item.(status := Failed, error := Some(Mismatch));
          return;
        }
      }
      if cfg.dryRun {
        item := item.(status := WouldRewrap);
        return;
      }
      if env.writeFails(item.name) {
        item := RaisedItem(item);
        return;
      }
      files := files[Target(cfg, item.name) := E.Encode(t.codec, moved, encoding)];
      item := item.(status := Rewrapped);
    }

    /** The whole run over the sorted listing: one item per file that is not a temporary, each exactly as
        if it had been handled alone on the original directory. */
    method RewrapDirectory(t: Tools, cfg: Config, destination: Option<Path>, sourceIsDirectory: bool, env: Env,
                           names: seq<Path>)
      returns (report: Result<seq<Item>, ArgumentError>)
      requires sourceIsDirectory ==> Listed(cfg, files, names)
      requires !cfg.inPlace && destination.Some? ==> cfg.dst == destination.value
      modifies this
      ensures report.Err? <==> CheckArguments(sourceIsDirectory, cfg.src, destination, cfg.inPlace).Some?
      ensures report.Err? ==> files == old(files)
      ensures report.Err? ==>
                Some(report.error) == CheckArguments(sourceIsDirectory, cfg.src, destination, cfg.inPlace)
      ensures report.Ok? ==> report.value == Items(t, cfg, env, old(files), names)
      ensures report.Ok? ==> IsResult(t, cfg, env, old(files), names, files)
    {
      var refused := CheckArguments(sourceIsDirectory, cfg.src, destination, cfg.inPlace);
      if refused.Some? {
        return Err(refused.value);
      }
      var items: seq<Item> := [];
      for i := 0 to |names|
        invariant items == Items(t, cfg, env, old(files), names[..i])
        invariant IsResult(t, cfg, env, old(files), names[..i], files)
      {
        ghost var before := files;
        LaterFilesUntouched(t, cfg, env, old(files), names, i, files);
        assert names[..i + 1][..i] == names[..i];
        if !Hidden(names[i]) {
          var item := RewrapFile(t, cfg, env, names[i]);
          items := items + [item];
        }
        OneMore(t, cfg, env, old(files), names, i, before, files);
      }
      assert names[..|names|] == names;
      report := Ok(items);
    }
  }

  // ------------------------------------------------------------------ what is asked for

  /** The AAD the operator asks for: one for all files, one per path, or whatever the message carries. */
  predicate AsksFor(cfg: Config, rel: Path, sealed: E.Message, aad: Bytes) {
    match cfg.expectedAad
    case Carried => aad == sealed.aad
    case Fixed(one) => aad == one
    case PerFile(aadOf) => aadOf(rel) == Some(aad)
  }

  /** A run is accepted exactly when its source is a directory and, in place, no other destination is named, or else
      a destination is named that is neither the source nor below it. */
  lemma AcceptedExactlyWhen(sourceIsDirectory: bool, src: Path, destination: Option<Path>, inPlace: bool)
    ensures CheckArguments(sourceIsDirectory, src, destination, inPlace).None?
            <==>
            && sourceIsDirectory
            && (inPlace ==> destination in {None, Some(src)})
            && (!inPlace ==> destination.Some? && forall below :: destination.value != src + below)
    ensures var refused := CheckArguments(sourceIsDirectory, src, destination, inPlace);
            && (refused == Some(SourceIsNotADirectory) <==> !sourceIsDirectory)
            && (refused == Some(DestinationWithInPlace)
                <==> sourceIsDirectory && inPlace && destination.Some? && destination != Some(src))
            && (refused == Some(DestinationMissing) <==> sourceIsDirectory && !inPlace && destination.None?)
            && (refused == Some(DestinationIsSource) <==> sourceIsDirectory && !inPlace && destination == Some(src))
            && (refused == Some(DestinationInsideSource)
                <==>
                && sourceIsDirectory && !inPlace && destination.Some? && destination != Some(src)
                && exists below :: destination.value == src + below)
  {
    if !inPlace && destination.Some? {
      var dst := destination.value;
      if src <= dst {
        assert dst == src + dst[|src|..];
      }
    }
  }

  // ------------------------------------------------------------------ what a run does

  ghost predicate CollisionFree(hash: Bytes -> Bytes) {
    forall a, b :: hash(a) == hash(b) ==> a == b
  }

  /** A written file is the source's envelope, moved: same encoding, the new algorithm, and the same AAD, which is the
      one the operator asks for. With the new secret key at hand the code itself makes sure that it opens to the
      source's plaintext. */
  lemma WrittenIsMoved(t: Tools, cfg: Config, env: Env, rel: Path, source: Option<Bytes>, target: Option<Bytes>)
    returns (sealed: E.Message, encoding: E.Encoding, moved: E.Message)
    requires Process(t, cfg, env, rel, source, target).write.Some?
    ensures source.Some? && E.Parse(t.codec, source.value) == Some((sealed, encoding))
    ensures Process(t, cfg, env, rel, source, target).write == Some(E.Encode(t.codec, moved, encoding))
    ensures AsksFor(cfg, rel, sealed, sealed.aad)
    ensures E.Rewrap(t.crypto, sealed, cfg.oldSecret, cfg.newPublic, sealed.aad, env.seed(rel)) == Some(moved)
    ensures moved.aad == sealed.aad && moved.algorithm == cfg.newPublic.algorithm && E.WellFormed(moved)
    ensures E.Open(t.crypto, sealed, cfg.oldSecret, sealed.aad).Some?
    ensures cfg.newSecret.Some? && CollisionFree(t.hash) ==>
              E.Open(t.crypto, moved, cfg.newSecret.value, moved.aad)
                  == E.Open(t.crypto, sealed, cfg.oldSecret, sealed.aad)
    ensures cfg.newSecret.Some? ==> UnderNewKey(t, cfg, moved, moved.aad)
  {
    var parsed := E.Parse(t.codec, source.value).value;
    sealed, encoding := parsed.0, parsed.1;
    var aad := AadFor(cfg, rel, sealed).value;
    moved := E.Rewrap(t.crypto, sealed, cfg.oldSecret, cfg.newPublic, aad, env.seed(rel)).value;
    assert sealed.aad == aad;
  }

  /** Every file written by a verified run opens under the new key to what its source held under the old one;
      read back from disk it is that envelope exactly when it is within the loader's 10 MB limit. */
  lemma VerifiedRun(t: Tools, cfg: Config, env: Env, files: Files, names: seq<Path>, result: Files, rel: Path)
    returns (sealed: E.Message, encoding: E.Encoding, moved: E.Message)
    requires IsResult(t, cfg, env, files, names, result)
    requires rel in names && Writes(t, cfg, env, files, rel)
    requires cfg.newSecret.Some? && CollisionFree(t.hash) && E.RoundTrips(t.codec)
    ensures Source(cfg, rel) in files && E.Parse(t.codec, files[Source(cfg, rel)]) == Some((sealed, encoding))
    ensures Target(cfg, rel) in result && result[Target(cfg, rel)] == E.Encode(t.codec, moved, encoding)
    ensures moved.aad == sealed.aad && moved.algorithm == cfg.newPublic.algorithm
    ensures E.Open(t.crypto, sealed, cfg.oldSecret, sealed.aad).Some?
    ensures E.Open(t.crypto, moved, cfg.newSecret.value, moved.aad)
            == E.Open(t.crypto, sealed, cfg.oldSecret, sealed.aad)
    ensures E.Parse(t.codec, result[Target(cfg, rel)]) == Some((moved, encoding))
            <==> |t.codec.toCbor(moved)| <= E.MAX_PAYLOAD_BYTES
  {
    sealed, encoding,
        moved := WrittenIsMoved(t, cfg, env, rel, At(files, Source(cfg, rel)), At(files, Target(cfg, rel)));
    assert At(result, Target(cfg, rel)) == OutcomeOf(t, cfg, env, files, rel).write;
    E.EncodeThenParse(t.codec, moved, encoding);
  }

  lemma MovedItemSaysWritten(t: Tools, cfg: Config, env: Env, item: Item, sealed: E.Message, encoding: E.Encoding,
                             aad: Bytes)
    requires item.verified.None?
    ensures var o := MoveOutcome(t, cfg, env, item, sealed, encoding, aad);
            && (o.write.Some? <==> o.item.status == Rewrapped)
            && (o.item.status in {Rewrapped, WouldRewrap} ==>
                o.item.verified == if cfg.newSecret.Some? then Some(true) else None)
            && o.item.name == item.name
  {
  }

  lemma ItemSaysWritten(t: Tools, cfg: Config, env: Env, rel: Path, source: Option<Bytes>, target: Option<Bytes>)
    ensures var o := Process(t, cfg, env, rel, source, target);
            && (o.write.Some? <==> o.item.status == Rewrapped)
            && (o.item.status in {Rewrapped, WouldRewrap} ==>
                o.item.verified == if cfg.newSecret.Some? then Some(true) else None)
            && o.item.name == rel
  {
    if source.Some? && E.Parse(t.codec, source.value).Some? {
      var (sealed, encoding) := E.Parse(t.codec, source.value).value;
      if AadFor(cfg, rel, sealed).Some? {
        var item := NewItem(rel).(fromAlgorithm := Some(sealed.algorithm));
        MovedItemSaysWritten(t, cfg, env, item, sealed, encoding, AadFor(cfg, rel, sealed).value);
      }
    }
  }

  lemma UnwrittenTargetKept(t: Tools, cfg: Config, env: Env, files: Files, names: seq<Path>, result: Files, rel: Path)
    requires IsResult(t, cfg, env, files, names, result)
    requires !Writes(t, cfg, env, files, rel)
    ensures At(result, Target(cfg, rel)) == At(files, Target(cfg, rel))
  {
    forall r | r in names && Writes(t, cfg, env, files, r)
      ensures Target(cfg, r) != Target(cfg, rel)
    {
      if Target(cfg, r) == Target(cfg, rel) {
        TargetInjective(cfg, r, rel);
        assert false;
      }
    }
  }

  /** Temporaries are the names that begin with a dot and end in `.tmp`, and a run neither reads nor writes them. */
  lemma TemporariesAreLeft(t: Tools, cfg: Config, env: Env, files: Files, names: seq<Path>, result: Files, rel: Path)
    requires IsResult(t, cfg, env, files, names, result)
    ensures Hidden(rel)
            <==> rel != [] && (rel[|rel| - 1] == ".tmp" || exists stem :: rel[|rel| - 1] == "." + stem + ".tmp")
    ensures Hidden(rel) ==> At(result, Target(cfg, rel)) == At(files, Target(cfg, rel))
  {
    if Hidden(rel) {
      var name := rel[|rel| - 1];
      if |name| > 4 {
        assert name == "." + name[1..|name| - 4] + ".tmp";
      }
      UnwrittenTargetKept(t, cfg, env, files, names, result, rel);
    }
    if rel != [] {
      forall stem | rel[|rel| - 1] == "." + stem + ".tmp"
        ensures Hidden(rel)
      {
        assert ("." + stem + ".tmp")[|stem| + 1..] == ".tmp";
      }
    }
  }

  /** The report tells the truth about the directory: a file is written exactly when its item says
      `rewrapped`, and any other file's target is left as it was. */
  lemma ReportIsTrue(t: Tools, cfg: Config, env: Env, files: Files, names: seq<Path>, result: Files, rel: Path,
                     item: Item)
    requires IsResult(t, cfg, env, files, names, result)
    requires rel in names && !Hidden(rel) && item == OutcomeOf(t, cfg, env, files, rel).item
    ensures item in Items(t, cfg, env, files, names) && item.name == rel
    ensures Writes(t, cfg, env, files, rel) <==> item.status == Rewrapped
    ensures item.status != Rewrapped ==> At(result, Target(cfg, rel)) == At(files, Target(cfg, rel))
    ensures item.status in {Rewrapped, WouldRewrap} ==>
              item.verified == if cfg.newSecret.Some? then Some(true) else None
  {
    ItemListed(t, cfg, env, files, names, rel);
    ItemSaysWritten(t, cfg, env, rel, At(files, Source(cfg, rel)), At(files, Target(cfg, rel)));
    if !Writes(t, cfg, env, files, rel) {
      UnwrittenTargetKept(t, cfg, env, files, names, result, rel);
    }
  }

  lemma {:induction false} ItemListed(t: Tools, cfg: Config, env: Env, files: Files, names: seq<Path>, rel: Path)
    requires rel in names && !Hidden(rel)
    ensures OutcomeOf(t, cfg, env, files, rel).item in Items(t, cfg, env, files, names)
  {
    var rest := names[..|names| - 1];
    assert names == rest + [names[|names| - 1]];
    if rel != names[|names| - 1] {
      ItemListed(t, cfg, env, files, rest, rel);
    }
  }

  /** A run with the new secret key leaves every envelope that did not fail under the new key: what is at its
      target then opens under it with the AAD asked for, and loads unless it is over the loader's limit. */
  lemma WhatDidNotFailIsMigrated(t: Tools, cfg: Config, env: Env, files: Files, names: seq<Path>, result: Files,
                                 rel: Path, sealed: E.Message, aad: Bytes) returns (m: E.Message, encoding: E.Encoding)
    requires IsResult(t, cfg, env, files, names, result) && rel in names && !Hidden(rel)
    requires !cfg.dryRun && cfg.newSecret.Some? && E.RoundTrips(t.codec)
    requires Source(cfg, rel) in files && E.Parse(t.codec, files[Source(cfg, rel)]).Some?
    requires E.Parse(t.codec, files[Source(cfg, rel)]).value.0 == sealed && AsksFor(cfg, rel, sealed, aad)
    requires OutcomeOf(t, cfg, env, files, rel).item.status != Failed
    ensures Target(cfg, rel) in result && UnderNewKey(t, cfg, m, aad)
    ensures E.Parse(t.codec, result[Target(cfg, rel)]) == Some((m, encoding))
            || (result[Target(cfg, rel)] == E.Encode(t.codec, m, encoding) && |t.codec.toCbor(m)| > E.MAX_PAYLOAD_BYTES)
  {
    var source, target := At(files, Source(cfg, rel)), At(files, Target(cfg, rel));
    if Writes(t, cfg, env, files, rel) {
      var s;
      s, encoding, m := WrittenIsMoved(t, cfg, env, rel, source, target);
      assert At(result, Target(cfg, rel)) == OutcomeOf(t, cfg, env, files, rel).write;
      E.EncodeThenParse(t.codec, m, encoding);
    } else {
      UnwrittenTargetKept(t, cfg, env, files, names, result, rel);
      UnwrittenIsThere(t, cfg, env, rel, source, target);
      var there := E.Parse(t.codec, target.value).value;
      m, encoding := there.0, there.1;
    }
  }

  /** A file that is neither written nor failed was found migrated. */
  lemma UnwrittenIsThere(t: Tools, cfg: Config, env: Env, rel: Path, source: Option<Bytes>, target: Option<Bytes>)
    requires cfg.inPlace ==> source == target
    requires !cfg.dryRun && cfg.newSecret.Some? && source.Some? && E.Parse(t.codec, source.value).Some?
    requires var o := Process(t, cfg, env, rel, source, target); o.write.None? && o.item.status != Failed
    ensures target.Some? && E.Parse(t.codec, target.value).Some?
    ensures AadFor(cfg, rel, E.Parse(t.codec, source.value).value.0).Some?
    ensures UnderNewKey(t, cfg, E.Parse(t.codec, target.value).value.0,
                        AadFor(cfg, rel, E.Parse(t.codec, source.value).value.0).value)
  {
  }

  /** When exactly an envelope comes out rewrapped, and as what: it reads, carries the AAD asked for, is not migrated
      yet and has no file in its way, opens under the old key, can be sealed to the new one and passes the check if
      one was asked for, in a run that writes and can. */
  lemma RewrappedExactlyWhen(t: Tools, cfg: Config, env: Env, rel: Path, source: Bytes, target: Option<Bytes>,
                             sealed: E.Message, encoding: E.Encoding)
    requires E.Parse(t.codec, source) == Some((sealed, encoding))
    ensures var o := Process(t, cfg, env, rel, Some(source), target);
            var plaintext := E.Open(t.crypto, sealed, cfg.oldSecret, sealed.aad);
            var moved := if plaintext.None? then None
                         else E.Seal(t.crypto, plaintext.value, cfg.newPublic, sealed.aad, env.seed(rel));
            && (o.item.status == Rewrapped
                <==>
                && !env.readFails(rel) && AsksFor(cfg, rel, sealed, sealed.aad)
                && (if cfg.inPlace then !UnderNewKey(t, cfg, sealed, sealed.aad) else target.None?)
                && moved.Some?
                && (cfg.newSecret.Some? ==>
                      var again := E.Open(t.crypto, moved.value, cfg.newSecret.value, moved.value.aad);
                      again.Some? && t.hash(again.value) == t.hash(plaintext.value))
                && !cfg.dryRun && !env.writeFails(rel))
            && (o.item.status == Rewrapped ==> o.write == Some(E.Encode(t.codec, moved.value, encoding)))
  {
    if AsksFor(cfg, rel, sealed, sealed.aad) {
      assert AadFor(cfg, rel, sealed) == Some(sealed.aad);
    }
  }

  /** A file is skipped exactly when it can be read and is no envelope. */
  lemma SkippedExactlyWhen(t: Tools, cfg: Config, env: Env, rel: Path, source: Option<Bytes>, target: Option<Bytes>)
    ensures Process(t, cfg, env, rel, source, target).item.status == Skipped
            <==> !env.readFails(rel) && source.Some? && E.Parse(t.codec, source.value).None?
  {
  }

  /** An envelope counts as migrated exactly when, in place, it opens under the new secret key with the AAD asked
      for; or, with a separate destination, the file there is an envelope of the new algorithm that opens so, if the
      key was given. */
  lemma MigratedExactlyWhen(t: Tools, cfg: Config, env: Env, rel: Path, source: Bytes, target: Option<Bytes>,
                            sealed: E.Message, encoding: E.Encoding, aad: Bytes)
    requires E.Parse(t.codec, source) == Some((sealed, encoding)) && AsksFor(cfg, rel, sealed, aad)
    ensures Process(t, cfg, env, rel, Some(source), target).item.status == AlreadyMigrated
            <==>
            && !env.readFails(rel)
            && (cfg.inPlace ==> cfg.newSecret.Some? && E.Open(t.crypto, sealed, cfg.newSecret.value, aad).Some?)
            && (!cfg.inPlace ==>
                  && target.Some? && !env.targetFails(rel) && E.Parse(t.codec, target.value).Some?
                  && var (there, _) := E.Parse(t.codec, target.value).value;
                     there.algorithm == cfg.newPublic.algorithm
                     && (cfg.newSecret.Some? ==> E.Open(t.crypto, there, cfg.newSecret.value, aad).Some?))
  {
    assert AadFor(cfg, rel, sealed) == Some(aad);
  }

  /** An envelope whose AAD is not the one the operator asks for is never written: its item says failed, unless a
      migrated copy with the right AAD is at the destination already. */
  lemma WrongAadIsNotWritten(t: Tools, cfg: Config, env: Env, rel: Path, source: Bytes, target: Option<Bytes>,
                             sealed: E.Message, encoding: E.Encoding)
    requires E.Parse(t.codec, source) == Some((sealed, encoding)) && !AsksFor(cfg, rel, sealed, sealed.aad)
    ensures var o := Process(t, cfg, env, rel, Some(source), target);
            o.write.None? && (o.item.status == Failed || (!cfg.inPlace && o.item.status == AlreadyMigrated))
  {
    assert AadFor(cfg, rel, sealed) != Some(sealed.aad);
  }

  lemma MovedItemTellsWhy(t: Tools, cfg: Config, env: Env, start: Item, sealed: E.Message, encoding: E.Encoding,
                          aad: Bytes)
    requires start.verified.None? && start.error.None? && start.status == Skipped
    ensures var item := MoveOutcome(t, cfg, env, start, sealed, encoding, aad).item;
            && item.name == start.name && item.fromAlgorithm == start.fromAlgorithm
            && item.status in {Rewrapped, WouldRewrap, Failed}
            && (item.status != Failed ==> item.error == None && item.toAlgorithm == Some(cfg.newPublic.algorithm))
            && (item.status == Failed ==> item.error in {Some(Mismatch), Some(Raised)})
            && (item.error == Some(Mismatch) <==> item.verified == Some(false))
  {
  }

  /** What the item of a file says beside its status: the algorithms it was moved between, and why it failed or was
      skipped. */
  lemma ItemTellsWhy(t: Tools, cfg: Config, env: Env, rel: Path, source: Option<Bytes>, target: Option<Bytes>)
    ensures var item := Process(t, cfg, env, rel, source, target).item;
            && item.name == rel
            && (item.status == Skipped ==> item == Item(rel, Skipped, None, None, None, Some(NotAnEnvelope)))
            && (item.status in {Rewrapped, WouldRewrap, AlreadyMigrated} ==>
                  && source.Some? && E.Parse(t.codec, source.value).Some? && item.error == None
                  && var (sealed, _) := E.Parse(t.codec, source.value).value;
                     && item.fromAlgorithm == Some(sealed.algorithm)
                     && item.toAlgorithm == Some(if item.status == AlreadyMigrated && cfg.inPlace then sealed.algorithm
                                                 else cfg.newPublic.algorithm))
            && (item.status == Failed ==> item.error in {Some(TargetIsNotACopy), Some(Mismatch), Some(Raised)})
            && (item.error == Some(TargetIsNotACopy) ==>
                  !cfg.inPlace && target.Some? && !env.targetFails(rel) && item.status == Failed)
            && (item.error == Some(Mismatch) <==> item.verified == Some(false))
            && (item.fromAlgorithm.Some? <==>
                  !env.readFails(rel) && source.Some? && E.Parse(t.codec, source.value).Some?)
  {
    if source.Some? && E.Parse(t.codec, source.value).Some? {
      var (sealed, encoding) := E.Parse(t.codec, source.value).value;
      var item := NewItem(rel).(fromAlgorithm := Some(sealed.algorithm));
      if AadFor(cfg, rel, sealed).Some? {
        MovedItemTellsWhy(t, cfg, env, item, sealed, encoding, AadFor(cfg, rel, sealed).value);
      }
    }
  }

  /** A copy that does not match says so: with the new secret key at hand the item is a mismatch exactly when both
      messages open and their plaintexts hash differently. */
  lemma MismatchExactlyWhen(t: Tools, cfg: Config, env: Env, start: Item, sealed: E.Message, encoding: E.Encoding,
                            aad: Bytes)
    requires start.verified.None? && start.error.None?
    ensures var moved := E.Rewrap(t.crypto, sealed, cfg.oldSecret, cfg.newPublic, aad, env.seed(start.name));
            MoveOutcome(t, cfg, env, start, sealed, encoding, aad).item.error == Some(Mismatch)
            <==>
            && moved.Some? && cfg.newSecret.Some?
            && var (original, again) := (E.Open(t.crypto, sealed, cfg.oldSecret, aad),
                                         E.Open(t.crypto, moved.value, cfg.newSecret.value, moved.value.aad));
               original.Some? && again.Some? && t.hash(original.value) != t.hash(again.value)
  {
  }

  /** The report lists the listed files that are no temporaries, each with its own item, in order. */
  lemma {:induction false} ReportListsTheFiles(t: Tools, cfg: Config, env: Env, files: Files, names: seq<Path>)
    ensures forall item :: item in Items(t, cfg, env, files, names)
              <==> exists rel :: rel in names && !Hidden(rel) && item == OutcomeOf(t, cfg, env, files, rel).item
    ensures (forall rel :: rel in names ==> !Hidden(rel)) ==>
              && |Items(t, cfg, env, files, names)| == |names|
              && forall i :: 0 <= i < |names| ==>
                   Items(t, cfg, env, files, names)[i] == OutcomeOf(t, cfg, env, files, names[i]).item
  {
    if names != [] {
      var rest, last := names[..|names| - 1], names[|names| - 1];
      assert names == rest + [last];
      ReportListsTheFiles(t, cfg, env, files, rest);
    }
  }

  lemma DryRunNeverWrites(t: Tools, cfg: Config, env: Env, rel: Path, source: Option<Bytes>, target: Option<Bytes>)
    requires cfg.dryRun
    ensures Process(t, cfg, env, rel, source, target).write.None?
  {
  }

  lemma DryRunWritesNothing(t: Tools, cfg: Config, env: Env, files: Files, names: seq<Path>, result: Files)
    requires IsResult(t, cfg, env, files, names, result) && cfg.dryRun
    ensures result == files
  {
    forall r | r in names
      ensures !Writes(t, cfg, env, files, r)
    {
      DryRunNeverWrites(t, cfg, env, r, At(files, Source(cfg, r)), At(files, Target(cfg, r)));
    }
    SameMap(result, files);
  }

  lemma SameMap(a: Files, b: Files)
    requires forall p :: At(a, p) == At(b, p)
    ensures a == b
  {
    assert forall p :: p in a <==> At(a, p).Some?;
    assert forall p :: p in b <==> At(b, p).Some?;
    forall p | p in a
      ensures p in b && a[p] == b[p]
    {
      assert At(a, p) == At(b, p);
    }
    assert a.Keys == b.Keys;
  }

  /** A dry run names exactly the files a real run writes, unless the write itself fails. */
  lemma DryRunPredicts(t: Tools, dry: Config, live: Config, env: Env, rel: Path, source: Option<Bytes>,
                       target: Option<Bytes>)
    requires live == dry.(dryRun := false) && dry.dryRun
    ensures Process(t, dry, env, rel, source, target).item.status == WouldRewrap && !env.writeFails(rel)
            <==> Process(t, live, env, rel, source, target).item.status == Rewrapped
  {
    forall sealed, aad, existing
      ensures AadFor(dry, rel, sealed) == AadFor(live, rel, sealed)
      ensures UnderNewKey(t, dry, sealed, aad) == UnderNewKey(t, live, sealed, aad)
      ensures IsCopy(t, dry, existing, aad) == IsCopy(t, live, existing, aad)
    {
    }
    forall item: Item, sealed, encoding, aad | item.name == rel
      ensures MoveOutcome(t, dry, env, item, sealed, encoding, aad).item.status == WouldRewrap && !env.writeFails(rel)
              <==> MoveOutcome(t, live, env, item, sealed, encoding, aad).item.status == Rewrapped
    {
      DryMove(t, dry, live, env, item, sealed, encoding, aad);
    }
  }

  lemma DryMove(t: Tools, dry: Config, live: Config, env: Env, item: Item, sealed: E.Message, encoding: E.Encoding,
                aad: Bytes)
    requires live == dry.(dryRun := false) && dry.dryRun
    ensures MoveOutcome(t, dry, env, item, sealed, encoding, aad).item.status == WouldRewrap
            && !env.writeFails(item.name)
            <==> MoveOutcome(t, live, env, item, sealed, encoding, aad).item.status == Rewrapped
  {
    forall m
      ensures Check(t, dry, sealed, m, aad) == Check(t, live, sealed, m, aad)
    {
    }
  }

  // ------------------------------------------------------------------ running again

  /** Messages sealed to the new key do not open under the old one. */
  ghost predicate OldKeyIsRetired(t: Tools, cfg: Config) {
    forall m: E.Message, plaintext: Bytes, aad: Bytes, seed: nat ::
      E.Seal(t.crypto, plaintext, cfg.newPublic, aad, seed) == Some(m) ==> E.Open(t.crypto, m, cfg.oldSecret, aad).None?
  }

  /** A migrated file is recognised as such by the next run. */
  ghost predicate Recognisable(t: Tools, cfg: Config) {
    !cfg.inPlace || cfg.newSecret.Some? || OldKeyIsRetired(t, cfg)
  }

  function AfterSource(cfg: Config, o: Outcome, source: Option<Bytes>): Option<Bytes> {
    if cfg.inPlace then AfterTarget(o, source) else source
  }

  function AfterTarget(o: Outcome, target: Option<Bytes>): Option<Bytes> {
    if o.write.Some? then o.write else target
  }

  /** A file that was just written is not written again. */
  lemma WrittenOnce(t: Tools, cfg: Config, env1: Env, env2: Env, rel: Path, source: Option<Bytes>,
                    target: Option<Bytes>)
    requires cfg.inPlace ==> source == target
    requires E.RoundTrips(t.codec) && Recognisable(t, cfg)
    requires Process(t, cfg, env1, rel, source, target).write.Some?
    ensures var o := Process(t, cfg, env1, rel, source, target);
            Process(t, cfg, env2, rel, AfterSource(cfg, o, source), AfterTarget(o, target)).write.None?
  {
    if cfg.inPlace {
      var o := Process(t, cfg, env1, rel, source, target);
      var sealed, encoding, moved := WrittenIsMoved(t, cfg, env1, rel, source, target);
      E.EncodeThenParse(t.codec, moved, encoding);
      if E.Parse(t.codec, o.write.value).Some? {
        assert AadFor(cfg, rel, moved) == Some(moved.aad);
        if cfg.newSecret.None? {
          var plaintext := E.Open(t.crypto, sealed, cfg.oldSecret, sealed.aad).value;
          assert E.Seal(t.crypto, plaintext, cfg.newPublic, sealed.aad, env1.seed(rel)) == Some(moved);
          assert E.Rewrap(t.crypto, moved, cfg.oldSecret, cfg.newPublic, moved.aad, env2.seed(rel)).None?;
        }
      }
    }
  }

  /** The state of a file's source and target after a run that lists it. */
  lemma StateAfter(t: Tools, cfg: Config, env: Env, files: Files, names: seq<Path>, result: Files, r: Path)
    requires IsResult(t, cfg, env, files, names, result)
    requires Source(cfg, r) in files
    ensures var o := OutcomeOf(t, cfg, env, files, r);
            var listed := r in names && !Hidden(r);
            && At(result, Source(cfg, r))
                == (if listed then AfterSource(cfg, o, At(files, Source(cfg, r))) else At(files, Source(cfg, r)))
            && At(result, Target(cfg, r))
                == (if listed then AfterTarget(o, At(files, Target(cfg, r))) else At(files, Target(cfg, r)))
  {
    if !(r in names && Writes(t, cfg, env, files, r)) {
      forall r2 | r2 in names && Writes(t, cfg, env, files, r2)
        ensures Target(cfg, r2) != Target(cfg, r)
      {
        if Target(cfg, r2) == Target(cfg, r) {
          TargetInjective(cfg, r2, r);
          assert false;
        }
      }
    }
    if !cfg.inPlace {
      NonDestructive(t, cfg, env, files, names, result, Source(cfg, r));
    }
  }

  /** A file that an earlier run left alone without failing stays left alone, whatever the later run meets. */
  lemma SettledStays(t: Tools, cfg: Config, env1: Env, env2: Env, rel: Path, source: Option<Bytes>,
                     target: Option<Bytes>)
    requires Process(t, cfg, env1, rel, source, target).item.status !in {Failed, Rewrapped}
    ensures Process(t, cfg, env2, rel, source, target).write.None?
  {
    if cfg.dryRun {
      DryRunNeverWrites(t, cfg, env2, rel, source, target);
    }
  }

  /** A second run with the same arguments writes only where the first one failed: in particular it never
      writes a file the first run wrote, skipped or found migrated. */
  lemma SecondRunWritesOnlyFailures(t: Tools, cfg: Config, env1: Env, env2: Env, files: Files, names: seq<Path>,
                                    once: Files, r: Path)
    requires IsResult(t, cfg, env1, files, names, once)
    requires r in names && Source(cfg, r) in files
    requires E.RoundTrips(t.codec) && Recognisable(t, cfg)
    requires Writes(t, cfg, env2, once, r)
    ensures OutcomeOf(t, cfg, env1, files, r).item.status == Failed
    ensures At(once, Source(cfg, r)) == At(files, Source(cfg, r))
            && At(once, Target(cfg, r)) == At(files, Target(cfg, r))
  {
    var source, target := At(files, Source(cfg, r)), At(files, Target(cfg, r));
    var o := OutcomeOf(t, cfg, env1, files, r);
    StateAfter(t, cfg, env1, files, names, once, r);
    ItemSaysWritten(t, cfg, env1, r, source, target);
    if o.write.Some? {
      WrittenOnce(t, cfg, env1, env2, r, source, target);
      assert false;
    } else if o.item.status != Failed {
      SettledStays(t, cfg, env1, env2, r, source, target);
      assert false;
    }
  }

  // ------------------------------------------------------------------ runs without input/output errors

  ghost predicate Quiet(env: Env) {
    forall r :: !env.readFails(r) && !env.targetFails(r) && !env.writeFails(r)
  }

  /** Whether encapsulation works does not depend on the random draw. */
  ghost predicate Uniform(t: Tools, cfg: Config) {
    && (forall s1: nat, s2: nat ::
          t.crypto.encapsulate(cfg.newPublic, s1).Some? <==> t.crypto.encapsulate(cfg.newPublic, s2).Some?)
    && (forall s: nat :: |t.crypto.randomNonce(s)| == E.NONCE_LEN)
  }

  /** `sk` belongs to the new public key, and is the new secret key if one was given. */
  ghost predicate KeysMatch(t: Tools, cfg: Config, sk: E.SecretKey) {
    E.Matches(t.crypto, cfg.newPublic, sk) && (cfg.newSecret.Some? ==> cfg.newSecret.value == sk)
  }

  lemma SealAgrees(t: Tools, cfg: Config, plaintext: Bytes, aad: Bytes, s1: nat, s2: nat)
    requires Uniform(t, cfg)
    ensures E.Seal(t.crypto, plaintext, cfg.newPublic, aad, s1).Some?
            <==> E.Seal(t.crypto, plaintext, cfg.newPublic, aad, s2).Some?
  {
    assert t.crypto.encapsulate(cfg.newPublic, s1).Some? <==> t.crypto.encapsulate(cfg.newPublic, s2).Some?;
  }

  /** A good envelope is rewrapped: in a live run without errors, under matching keys, whatever its encoding. */
  lemma GoodEnvelopesAreRewrapped(t: Tools, cfg: Config, sk: E.SecretKey, env: Env, rel: Path, source: Bytes,
                                  target: Option<Bytes>, sealed: E.Message, encoding: E.Encoding)
    requires E.Parse(t.codec, source) == Some((sealed, encoding)) && AsksFor(cfg, rel, sealed, sealed.aad)
    requires E.Open(t.crypto, sealed, cfg.oldSecret, sealed.aad).Some?
    requires E.Seal(t.crypto, E.Open(t.crypto, sealed, cfg.oldSecret, sealed.aad).value, cfg.newPublic, sealed.aad,
                    env.seed(rel)).Some?
    requires Quiet(env) && !cfg.dryRun && KeysMatch(t, cfg, sk)
    requires if cfg.inPlace then !UnderNewKey(t, cfg, sealed, sealed.aad) else target.None?
    ensures Process(t, cfg, env, rel, Some(source), target).item.status == Rewrapped
  {
    var plaintext := E.Open(t.crypto, sealed, cfg.oldSecret, sealed.aad).value;
    RewrappedExactlyWhen(t, cfg, env, rel, source, target, sealed, encoding);
    E.SealThenOpen(t.crypto, plaintext, cfg.newPublic, sk, sealed.aad, env.seed(rel));
    assert !env.readFails(rel) && !env.writeFails(rel);
  }

  /** What can be written under any circumstances is written by every run without errors. */
  lemma QuietRunWrites(t: Tools, cfg: Config, sk: E.SecretKey, quiet: Env, env: Env, rel: Path, source: Option<Bytes>,
                       target: Option<Bytes>)
    requires Quiet(quiet) && Uniform(t, cfg) && KeysMatch(t, cfg, sk)
    requires Process(t, cfg, env, rel, source, target).write.Some?
    ensures Process(t, cfg, quiet, rel, source, target).write.Some?
  {
    var sealed, encoding, moved := WrittenIsMoved(t, cfg, env, rel, source, target);
    var plaintext := E.Open(t.crypto, sealed, cfg.oldSecret, sealed.aad).value;
    SealAgrees(t, cfg, plaintext, sealed.aad, env.seed(rel), quiet.seed(rel));
    var again := E.Rewrap(t.crypto, sealed, cfg.oldSecret, cfg.newPublic, sealed.aad, quiet.seed(rel));
    E.RewrapPreserves(t.crypto, sealed, cfg.oldSecret, cfg.newPublic, sk, sealed.aad, quiet.seed(rel));
    assert !quiet.readFails(rel) && !quiet.writeFails(rel);
  }

  /** After a run without errors a second run with the same arguments changes no file, even if it meets
      errors itself. */
  lemma SecondRunChangesNothing(t: Tools, cfg: Config, sk: E.SecretKey, env1: Env, env2: Env, files: Files,
                                names: seq<Path>, once: Files, names2: seq<Path>, twice: Files)
    requires Listed(cfg, files, names) && IsResult(t, cfg, env1, files, names, once)
    requires IsResult(t, cfg, env2, once, names2, twice)
    requires forall r :: r in names2 ==> r in names
    requires E.RoundTrips(t.codec) && Recognisable(t, cfg)
    requires Quiet(env1) && Uniform(t, cfg) && KeysMatch(t, cfg, sk)
    ensures twice == once
  {
    forall r | r in names2
      ensures !Writes(t, cfg, env2, once, r)
    {
      if Writes(t, cfg, env2, once, r) {
        SecondRunWritesOnlyFailures(t, cfg, env1, env2, files, names, once, r);
        var source, target := At(files, Source(cfg, r)), At(files, Target(cfg, r));
        QuietRunWrites(t, cfg, sk, env1, env2, r, source, target);
        ItemSaysWritten(t, cfg, env1, r, source, target);
        assert false;
      }
    }
    SameMap(twice, once);
  }

  /** When neither directory lies inside the other, a run leaves the source listing as it was. */
  lemma ListingStays(t: Tools, cfg: Config, env: Env, files: Files, names: seq<Path>, result: Files, r: Path)
    requires Listed(cfg, files, names) && IsResult(t, cfg, env, files, names, result)
    requires cfg.inPlace || (!(cfg.src <= cfg.dst) && !(cfg.dst <= cfg.src))
    ensures Source(cfg, r) in files <==> Source(cfg, r) in result
  {
    if !cfg.inPlace {
      forall w | w in names && Writes(t, cfg, env, files, w)
        ensures Target(cfg, w) != Source(cfg, r)
      {
        assert (cfg.dst + w)[..|cfg.dst|] == cfg.dst && (cfg.src + r)[..|cfg.src|] == cfg.src;
      }
      assert At(result, Source(cfg, r)) == At(files, Source(cfg, r));
    } else if w :| w in names && Writes(t, cfg, env, files, w) && Target(cfg, w) == Source(cfg, r) {
      assert At(result, Source(cfg, r)) == OutcomeOf(t, cfg, env, files, w).write;
    } else {
      assert At(result, Source(cfg, r)) == At(files, Source(cfg, r));
    }
  }

  /** In place and without the new secret key, a file just written is written again exactly when it can be
      read back and the old key still opens it. */
  lemma InPlaceWithoutNewSecret(t: Tools, cfg: Config, env1: Env, env2: Env, rel: Path, source: Option<Bytes>)
    returns (moved: E.Message)
    requires cfg.inPlace && cfg.newSecret.None?
    requires E.RoundTrips(t.codec) && Uniform(t, cfg) && Quiet(env2)
    requires Process(t, cfg, env1, rel, source, source).write.Some?
    ensures moved.algorithm == cfg.newPublic.algorithm
    ensures source.Some? && E.Parse(t.codec, source.value).Some?
    ensures var sealed := E.Parse(t.codec, source.value).value.0;
            E.Rewrap(t.crypto, sealed, cfg.oldSecret, cfg.newPublic, sealed.aad, env1.seed(rel)) == Some(moved)
    ensures var o := Process(t, cfg, env1, rel, source, source);
            Process(t, cfg, env2, rel, o.write, o.write).write.Some?
            <==>
            |t.codec.toCbor(moved)| <= E.MAX_PAYLOAD_BYTES && E.Open(t.crypto, moved, cfg.oldSecret, moved.aad).Some?
  {
    var sealed, encoding;
    sealed, encoding, moved := WrittenIsMoved(t, cfg, env1, rel, source, source);
    var o := Process(t, cfg, env1, rel, source, source);
    E.EncodeThenParse(t.codec, moved, encoding);
    if E.Parse(t.codec, o.write.value).Some? {
      assert AadFor(cfg, rel, moved) == Some(moved.aad);
      var first := E.Open(t.crypto, sealed, cfg.oldSecret, sealed.aad).value;
      match E.Open(t.crypto, moved, cfg.oldSecret, moved.aad)
      case None =>
      case Some(second) =>
        SealAgrees(t, cfg, first, sealed.aad, env1.seed(rel), env2.seed(rel));
        assert E.Seal(t.crypto, second, cfg.newPublic, moved.aad, env2.seed(rel)).Some?;
    }
    assert !env2.readFails(rel) && !env2.writeFails(rel);
  }

  /** Before the run a caller can tell: with the same key on both sides every file that reads back is written
      again by each run, and once the old key is retired none is. */
  lemma InPlaceByTheKeys(t: Tools, cfg: Config, env1: Env, env2: Env, rel: Path, source: Option<Bytes>)
    returns (moved: E.Message)
    requires cfg.inPlace && cfg.newSecret.None?
    requires E.RoundTrips(t.codec) && Uniform(t, cfg) && Quiet(env2)
    requires Process(t, cfg, env1, rel, source, source).write.Some?
    ensures E.Matches(t.crypto, cfg.newPublic, cfg.oldSecret) ==>
              (var o := Process(t, cfg, env1, rel, source, source);
               Process(t, cfg, env2, rel, o.write, o.write).write.Some?
               <==> |t.codec.toCbor(moved)| <= E.MAX_PAYLOAD_BYTES)
    ensures OldKeyIsRetired(t, cfg) ==>
              (var o := Process(t, cfg, env1, rel, source, source);
               Process(t, cfg, env2, rel, o.write, o.write).write.None?)
  {
    moved := InPlaceWithoutNewSecret(t, cfg, env1, env2, rel, source);
    var sealed := E.Parse(t.codec, source.value).value.0;
    var plaintext := E.Open(t.crypto, sealed, cfg.oldSecret, sealed.aad).value;
    assert E.Seal(t.crypto, plaintext, cfg.newPublic, sealed.aad, env1.seed(rel)) == Some(moved);
    if E.Matches(t.crypto, cfg.newPublic, cfg.oldSecret) {
      E.SealThenOpen(t.crypto, plaintext, cfg.newPublic, cfg.oldSecret, sealed.aad, env1.seed(rel));
    }
  }

  /** The same file, or two encodings alike of messages that carry the same AAD and plaintext to `sk`. */
  ghost predicate SameContent(t: Tools, sk: E.SecretKey, x: Option<Bytes>, y: Option<Bytes>) {
    x == y || exists m1, m2, e ::
      && x == Some(E.Encode(t.codec, m1, e)) && y == Some(E.Encode(t.codec, m2, e))
      && m1.aad == m2.aad && m1.algorithm == m2.algorithm
      && E.Open(t.crypto, m1, sk, m1.aad).Some?
      && E.Open(t.crypto, m1, sk, m1.aad) == E.Open(t.crypto, m2, sk, m2.aad)
  }

  lemma TwoWritesAgree(t: Tools, cfg: Config, sk: E.SecretKey, env1: Env, env2: Env, rel: Path, source: Option<Bytes>,
                       target: Option<Bytes>)
    requires KeysMatch(t, cfg, sk)
    requires Process(t, cfg, env1, rel, source, target).write.Some?
    requires Process(t, cfg, env2, rel, source, target).write.Some?
    ensures SameContent(t, sk, Process(t, cfg, env1, rel, source, target).write,
                        Process(t, cfg, env2, rel, source, target).write)
  {
    var sealed, e, m1 := WrittenIsMoved(t, cfg, env1, rel, source, target);
    var sealed2, e2, m2 := WrittenIsMoved(t, cfg, env2, rel, source, target);
    E.RewrapPreserves(t.crypto, sealed, cfg.oldSecret, cfg.newPublic, sk, sealed.aad, env1.seed(rel));
    E.RewrapPreserves(t.crypto, sealed, cfg.oldSecret, cfg.newPublic, sk, sealed.aad, env2.seed(rel));
    assert e == e2;
  }

  lemma ResumeFile(t: Tools, cfg: Config, sk: E.SecretKey, env1: Env, env2: Env, env3: Env, rel: Path,
                   source: Option<Bytes>, target: Option<Bytes>)
    requires cfg.inPlace ==> source == target
    requires E.RoundTrips(t.codec) && Recognisable(t, cfg)
    requires Quiet(env1) && Quiet(env2) && Quiet(env3) && Uniform(t, cfg) && KeysMatch(t, cfg, sk)
    ensures var o1 := Process(t, cfg, env1, rel, source, target);
            var o2 := Process(t, cfg, env2, rel, AfterSource(cfg, o1, source), AfterTarget(o1, target));
            var o3 := Process(t, cfg, env3, rel, source, target);
            SameContent(t, sk, AfterTarget(o2, AfterTarget(o1, target)), AfterTarget(o3, target))
  {
    if Process(t, cfg, env1, rel, source, target).write.Some? {
      WrittenOnce(t, cfg, env1, env2, rel, source, target);
      QuietRunWrites(t, cfg, sk, env3, env1, rel, source, target);
      TwoWritesAgree(t, cfg, sk, env1, env3, rel, source, target);
    } else {
      FreshFile(t, cfg, sk, env2, env3, rel, source, target);
    }
  }

  lemma FreshFile(t: Tools, cfg: Config, sk: E.SecretKey, env2: Env, env3: Env, rel: Path, source: Option<Bytes>,
                  target: Option<Bytes>)
    requires Quiet(env2) && Quiet(env3) && Uniform(t, cfg) && KeysMatch(t, cfg, sk)
    ensures SameContent(t, sk, AfterTarget(Process(t, cfg, env2, rel, source, target), target),
                        AfterTarget(Process(t, cfg, env3, rel, source, target), target))
  {
    if Process(t, cfg, env2, rel, source, target).write.Some? {
      QuietRunWrites(t, cfg, sk, env3, env2, rel, source, target);
      TwoWritesAgree(t, cfg, sk, env2, env3, rel, source, target);
    } else if Process(t, cfg, env3, rel, source, target).write.Some? {
      QuietRunWrites(t, cfg, sk, env2, env3, rel, source, target);
      assert false;
    }
  }

  /** A run stopped after any prefix of the list and then run in full reaches, path by path, the same messages
      as one uninterrupted run. */
  lemma Resume(t: Tools, cfg: Config, sk: E.SecretKey, env1: Env, env2: Env, env3: Env, files: Files, names: seq<Path>,
               k: nat, stopped: Files, resumed: Files, straight: Files, p: Path)
    requires Listed(cfg, files, names) && k <= |names|
    requires IsResult(t, cfg, env1, files, names[..k], stopped)
    requires IsResult(t, cfg, env2, stopped, names, resumed)
    requires IsResult(t, cfg, env3, files, names, straight)
    requires E.RoundTrips(t.codec) && Recognisable(t, cfg)
    requires Quiet(env1) && Quiet(env2) && Quiet(env3) && Uniform(t, cfg) && KeysMatch(t, cfg, sk)
    ensures SameContent(t, sk, At(resumed, p), At(straight, p))
  {
    if r :| r in names && !Hidden(r) && Target(cfg, r) == p {
      var source, target := At(files, Source(cfg, r)), At(files, Target(cfg, r));
      StateAfter(t, cfg, env1, files, names[..k], stopped, r);
      assert Source(cfg, r) in stopped by { assert At(stopped, Source(cfg, r)).Some?; }
      StateAfter(t, cfg, env2, stopped, names, resumed, r);
      StateAfter(t, cfg, env3, files, names, straight, r);
      if r in names[..k] {
        ResumeFile(t, cfg, sk, env1, env2, env3, r, source, target);
      } else {
        FreshFile(t, cfg, sk, env2, env3, r, source, target);
      }
    } else {
      assert At(resumed, p) == At(stopped, p) == At(files, p) == At(straight, p);
    }
  }

  // ------------------------------------------------------------------ the report

  function StatusCount(items: seq<Item>, status: Status): nat {
    if items == [] then 0
    else StatusCount(items[..|items| - 1], status) + (if items[|items| - 1].status == status then 1 else 0)
  }

  function Having(items: seq<Item>, status: Status): set<int> {
    set i | 0 <= i < |items| && items[i].status == status
  }

  lemma HavingSnoc(items: seq<Item>, last: Item, status: Status)
    ensures Having(items + [last], status) == Having(items, status) + if last.status == status then {|items|} else {}
  {
    assert forall i :: 0 <= i < |items| ==> (items + [last])[i] == items[i];
  }

  /** The count is the number of items with the status. */
  lemma {:induction false} CountsAreOfItems(items: seq<Item>, status: Status)
    ensures StatusCount(items, status) == |Having(items, status)|
  {
    if items == [] {
      assert Having(items, status) == {};
    } else {
      var rest, last := items[..|items| - 1], items[|items| - 1];
      assert items == rest + [last];
      CountsAreOfItems(rest, status);
      HavingSnoc(rest, last, status);
    }
  }

  datatype Counts = Counts(rewrapped: nat, skipped: nat, failed: nat, wouldRewrap: Option<nat>)

  /** `RewrapReport.counts`: migrated files count as skipped, the dry-run count is present when it is not
      zero, and together the counts cover every item once. */
  method CountItems(items: seq<Item>) returns (c: Counts)
    ensures c.rewrapped == StatusCount(items, Rewrapped) && c.failed == StatusCount(items, Failed)
    ensures c.skipped == StatusCount(items, Skipped) + StatusCount(items, AlreadyMigrated)
    ensures c.wouldRewrap ==
            if StatusCount(items, WouldRewrap) == 0 then None else Some(StatusCount(items, WouldRewrap))
    ensures c.rewrapped + c.skipped + c.failed + (if c.wouldRewrap.Some? then c.wouldRewrap.value else 0) == |items|
  {
    c := Counts(0, 0, 0, None);
    for i := 0 to |items|
      invariant c.rewrapped == StatusCount(items[..i], Rewrapped) && c.failed == StatusCount(items[..i], Failed)
      invariant c.skipped == StatusCount(items[..i], Skipped) + StatusCount(items[..i], AlreadyMigrated)
      invariant c.wouldRewrap ==
                if StatusCount(items[..i], WouldRewrap) == 0 then None else Some(StatusCount(items[..i], WouldRewrap))
      invariant c.rewrapped + c.skipped + c.failed + (if c.wouldRewrap.Some? then c.wouldRewrap.value else 0) == i
    {
      assert items[..i + 1][..i] == items[..i];
      if items[i].status == Rewrapped {
        c := c.(rewrapped := c.rewrapped + 1);
      } else if items[i].status == Failed {
        c := c.(failed := c.failed + 1);
      } else if items[i].status == WouldRewrap {
        c := c.(wouldRewrap := Some((if c.wouldRewrap.Some? then c.wouldRewrap.value else 0) + 1));
      } else {
        c := c.(skipped := c.skipped + 1);
      }
    }
    assert items[..|items|] == items;
  }

  predicate ReportOk(items: seq<Item>) {
    && StatusCount(items, Failed) == 0
    && forall i :: 0 <= i < |items| && items[i].status == Rewrapped ==> items[i].verified != Some(false)
  }

  /** A run's report is `ok` exactly when no item failed: a copy that did not match is a failure. */
  lemma OkMeansNoFailure(t: Tools, cfg: Config, env: Env, files: Files, names: seq<Path>)
    ensures ReportOk(Items(t, cfg, env, files, names)) <==> StatusCount(Items(t, cfg, env, files, names), Failed) == 0
    ensures forall item :: item in Items(t, cfg, env, files, names) && item.status == Rewrapped ==>
              item.verified != Some(false)
  {
    var items := Items(t, cfg, env, files, names);
    ReportListsTheFiles(t, cfg, env, files, names);
    forall item | item in items && item.status == Rewrapped
      ensures item.verified != Some(false)
    {
      var rel :| rel in names && !Hidden(rel) && item == OutcomeOf(t, cfg, env, files, rel).item;
      ItemSaysWritten(t, cfg, env, rel, At(files, Source(cfg, rel)), At(files, Target(cfg, rel)));
    }
    assert forall i :: 0 <= i < |items| ==> items[i] in items;
  }
}
