/**
 Mirroring a source tree into a deployment directory with a manifest, and verifying it.

 A path holds a regular file or a symbolic link; directories are implied by their files.  Two files
 have the same SHA-256 digest exactly when they have the same content.
 */
module DeploySync {
  import opened Support

  datatype Stamp = Stamp(content: string, mode: int)

  /** `target` is the file a link resolves to, None for a broken one. */
  datatype Node = Regular(stamp: Stamp) | Link(target: Option<Stamp>)

  type Files = map<string, Node>

  /** The source files collected for a sync. */
  type Source = map<string, Stamp>

  // ----- one sync, stated at once -----

  /** Every source path is a regular copy, every path tracked before but gone from the source is gone. */
  function Synced(files: Files, tracked: set<string>, src: Source): Files {
    (files - (tracked - src.Keys)) + map p | p in src :: Regular(src[p])
  }

  function Created(files: Files, src: Source): set<string> {
    set p | p in src && (p !in files || files[p].Link?)
  }

  function Updated(files: Files, src: Source): set<string> {
    set p | p in src && p in files && files[p].Regular? && files[p] != Regular(src[p])
  }

  function Removed(files: Files, tracked: set<string>, src: Source): set<string> {
    (tracked - src.Keys) * files.Keys
  }

  datatype Drift =
    | MissingFile(path: string)
    | BecameLink(path: string)
    | ContentDrift(path: string)
    | PermissionDrift(path: string)

  ghost predicate Drifts(files: Files, manifest: map<string, Stamp>, d: Drift) {
    && d.path in manifest
    && match d
       case MissingFile(p) => p !in files || files[p] == Link(None)
       case BecameLink(p) => p in files && files[p].Link? && files[p].target.Some?
       case ContentDrift(p) => p in files && files[p].Regular? && files[p].stamp.content != manifest[p].content
       case PermissionDrift(p) => p in files && files[p].Regular? && files[p].stamp.mode != manifest[p].mode
  }

  /** Nothing drifted if and only if every tracked path is a regular file with its content and mode. */
  lemma NoDriftIff(files: Files, manifest: map<string, Stamp>)
    ensures (forall d :: !Drifts(files, manifest, d))
       <==> forall p :: p in manifest ==> p in files && files[p] == Regular(manifest[p])
  {
    if forall d :: !Drifts(files, manifest, d) {
      forall p | p in manifest
        ensures p in files && files[p] == Regular(manifest[p])
      {
        assert !Drifts(files, manifest, MissingFile(p)) && !Drifts(files, manifest, BecameLink(p));
        assert !Drifts(files, manifest, ContentDrift(p)) && !Drifts(files, manifest, PermissionDrift(p));
      }
    }
  }

  /** The files once every source path that is not pending has been copied. */
  function Copied(files: Files, src: Source, pending: set<string>): Files {
    files + map p | p in src && p !in pending :: Regular(src[p])
  }

  lemma NothingLeft(all: set<string>, pending: set<string>)
    requires all <= pending
    ensures |all - pending| == 0 && all - {} == all
  {
    assert forall p :: p !in all - pending;
    assert all - pending == {};
  }

  lemma NothingCopied(files: Files, src: Source)
    ensures Copied(files, src, src.Keys) == files
  {
    var now := Copied(files, src, src.Keys);
    forall p
      ensures (p in now <==> p in files) && (p in files ==> now[p] == files[p])
    {
    }
  }

  lemma CopyStarts(files: Files, src: Source)
    ensures Copied(files, src, src.Keys) == files
    ensures |Created(files, src) - src.Keys| == |Updated(files, src) - src.Keys| == 0
    ensures Created(files, src) - {} == Created(files, src) && Updated(files, src) - {} == Updated(files, src)
  {
    NothingCopied(files, src);
    NothingLeft(Created(files, src), src.Keys);
    NothingLeft(Updated(files, src), src.Keys);
  }

  lemma CopyStep(files: Files, src: Source, pending: set<string>, p: string)
    requires p in pending && pending <= src.Keys
    ensures var now := Copied(files, src, pending);
            && (p in now <==> p in files) && (p in files ==> now[p] == files[p])
            && Copied(files, src, pending - {p}) == now[p := Regular(src[p])]
    ensures |Created(files, src) - (pending - {p})|
         == |Created(files, src) - pending| + if p !in files || files[p].Link? then 1 else 0
    ensures |Updated(files, src) - (pending - {p})|
         == |Updated(files, src) - pending|
            + if p in files && files[p].Regular? && files[p] != Regular(src[p]) then 1 else 0
  {
    CountOne(Created(files, src), pending, p);
    CountOne(Updated(files, src), pending, p);
    CopyOneMore(files, src, pending, p);
  }

  lemma CopyOneMore(files: Files, src: Source, pending: set<string>, p: string)
    requires p in pending && pending <= src.Keys
    ensures var now := Copied(files, src, pending);
            && (p in now <==> p in files) && (p in files ==> now[p] == files[p])
            && Copied(files, src, pending - {p}) == now[p := Regular(src[p])]
  {
    var next, now := Copied(files, src, pending - {p}), Copied(files, src, pending)[p := Regular(src[p])];
    forall q
      ensures (q in next <==> q in now) && (q in now ==> next[q] == now[q])
    {
    }
  }

  lemma RemoveStarts(files: Files, stale: set<string>)
    ensures files - (stale - stale) == files && |stale * files.Keys - stale| == 0
    ensures stale - {} == stale && stale * files.Keys - {} == stale * files.Keys
  {
    NothingLeft(stale * files.Keys, stale);
  }

  lemma RemoveStep(files: Files, stale: set<string>, pending: set<string>, p: string)
    requires p in pending && pending <= stale
    ensures var now := files - (stale - pending);
            && (p in now <==> p in files)
            && files - (stale - (pending - {p})) == if p in files then now - {p} else now
    ensures |stale * files.Keys - (pending - {p})| == |stale * files.Keys - pending| + if p in files then 1 else 0
  {
    CountOne(stale * files.Keys, pending, p);
    RemoveOneMore(files, stale, pending, p);
  }

  lemma RemoveOneMore(files: Files, stale: set<string>, pending: set<string>, p: string)
    requires p in pending && pending <= stale
    ensures var now := files - (stale - pending);
            && (p in now <==> p in files)
            && files - (stale - (pending - {p})) == if p in files then now - {p} else now
  {
    var now, next := files - (stale - pending), files - (stale - (pending - {p}));
    forall q
      ensures q in next <==> q in now && q != p
      ensures q in next ==> next[q] == now[q]
    {
    }
  }

  lemma CopyThenRemove(files: Files, tracked: set<string>, src: Source)
    ensures Copied(files, src, {}) - (tracked - src.Keys) == Synced(files, tracked, src)
    ensures (tracked - src.Keys) * Copied(files, src, {}).Keys == Removed(files, tracked, src)
  {
    var copied := Copied(files, src, {});
    forall p
      ensures p in copied - (tracked - src.Keys) <==> p in Synced(files, tracked, src)
    {
    }
  }

  class Deployment {
    var files: Files
    /** None while there is no readable manifest. */
    var manifest: Option<map<string, Stamp>>

    constructor (files: Files, manifest: Option<map<string, Stamp>>)
      ensures this.files == files && this.manifest == manifest
    {
      this.files, this.manifest := files, manifest;
    }

    function Tracked(): set<string>
      reads this
    {
      if manifest.Some? then manifest.value.Keys else {}
    }

    /** Copy one source file unless a regular file with its content and mode is there. */
    method CopyFile(p: string, stamp: Stamp) returns (created: bool, updated: bool)
      modifies this
      ensures files == old(files)[p := Regular(stamp)] && manifest == old(manifest)
      ensures created <==> p !in old(files) || old(files)[p].Link?
      ensures updated <==> !created && old(files)[p] != Regular(stamp)
    {
      created, updated := false, false;
      if p in files && files[p].Link? {
        files := files - {p};
      }
      if p !in files {
        created := true;
        files := files[p := Regular(stamp)];
      } else if files[p].stamp.content != stamp.content || files[p].stamp.mode != stamp.mode {
        updated := true;
        files := files[p := Regular(stamp)];
      }
    }

    method CopyAll(src: Source) returns (created: nat, updated: nat)
      modifies this
      ensures files == Copied(old(files), src, {}) && manifest == old(manifest)
      ensures created == |Created(old(files), src)| && updated == |Updated(old(files), src)|
    {
      created, updated := 0, 0;
      var pending := src.Keys;
      CopyStarts(files, src);
      while pending != {}
        invariant pending <= src.Keys && manifest == old(manifest)
        invariant files == Copied(old(files), src, pending)
        invariant created == |Created(old(files), src) - pending|
        invariant updated == |Updated(old(files), src) - pending|
        decreases pending
      {
        ghost var e := Element(pending);
        var p :| p in pending;
        CopyStep(old(files), src, pending, p);
        var c, u := CopyFile(p, src[p]);
        created, updated := created + (if c then 1 else 0), updated + if u then 1 else 0;
        pending := pending - {p};
      }
    }

    /** The loop over the old manifest. */
    method RemoveStale(stale: set<string>) returns (removed: nat)
      modifies this
      ensures files == old(files) - stale && manifest == old(manifest)
      ensures removed == |stale * old(files).Keys|
    {
      removed := 0;
      var pending := stale;
      RemoveStarts(files, stale);
      while pending != {}
        invariant pending <= stale && manifest == old(manifest)
        invariant files == old(files) - (stale - pending)
        invariant removed == |stale * old(files).Keys - pending|
        decreases pending
      {
        ghost var e := Element(pending);
        var p :| p in pending;
        RemoveStep(old(files), stale, pending, p);
        if p in files {
          files := files - {p};
          removed := removed + 1;
        }
        pending := pending - {p};
      }
    }

    method Sync(src: Source) returns (created: nat, updated: nat, removed: nat)
      modifies this
      ensures files == Synced(old(files), old(Tracked()), src) && manifest == Some(src)
      ensures created == |Created(old(files), src)| && updated == |Updated(old(files), src)|
      ensures removed == |Removed(old(files), old(Tracked()), src)|
    {
      created, updated := CopyAll(src);
      CopyThenRemove(old(files), Tracked(), src);
      removed := RemoveStale(Tracked() - src.Keys);
      manifest := Some(src);
    }

    /** The exit code and the drifts it reports. */
    method Verify() returns (code: nat, drifts: set<Drift>)
      ensures code == 0 <==>
              manifest.Some? && forall p :: p in manifest.value ==> p in files && files[p] == Regular(manifest.value[p])
      ensures manifest.Some? ==> forall d :: d in drifts <==> Drifts(files, manifest.value, d)
    {
      drifts := {};
      if manifest.None? {
        return 1, {};
      }
      var tracked := manifest.value;
      var pending := tracked.Keys;
      while pending != {}
        invariant pending <= tracked.Keys
        invariant forall d :: d in drifts <==> Drifts(files, tracked, d) && d.path !in pending
        decreases pending
      {
        ghost var e := Element(pending);
        var p :| p in pending;
        pending := pending - {p};
        if p !in files || files[p] == Link(None) {
          drifts := drifts + {MissingFile(p)};
          continue;
        }
        if files[p].Link? {
          drifts := drifts + {BecameLink(p)};
          continue;
        }
        if files[p].stamp.content != tracked[p].content {
          drifts := drifts + {ContentDrift(p)};
        }
        if files[p].stamp.mode != tracked[p].mode {
          drifts := drifts + {PermissionDrift(p)};
        }
      }
      NoDriftIff(files, tracked);
      ghost var d := Element(drifts);
      return if drifts == {} then 0 else 1, drifts;
    }
  }

  lemma CountOne(all: set<string>, pending: set<string>, p: string)
    requires p in pending
    ensures |all - (pending - {p})| == |all - pending| + if p in all then 1 else 0
  {
    assert all - (pending - {p}) == if p in all then (all - pending) + {p} else all - pending;
  }

  // ----- any number of syncs -----

  datatype State = State(files: Files, tracked: set<string>)

  function SyncAll(s: State, sources: seq<Source>): State {
    if sources == [] then s
    else
      var before := SyncAll(s, sources[..|sources| - 1]);
      var last := sources[|sources| - 1];
      State(Synced(before.files, before.tracked, last), last.Keys)
  }

  predicate EverTracked(s: State, sources: seq<Source>, p: string) {
    p in s.tracked || exists i :: 0 <= i < |sources| && p in sources[i]
  }

  /** After any number of syncs: the last source is mirrored, everything else that was ever tracked is
      gone, and everything never tracked is as it was. */
  lemma {:induction false} SyncAllMirrors(s: State, sources: seq<Source>, p: string)
    requires sources != []
    ensures var last, end := sources[|sources| - 1], SyncAll(s, sources);
            && end.tracked == last.Keys
            && (p in last ==> p in end.files && end.files[p] == Regular(last[p]))
            && (p !in last && EverTracked(s, sources, p) ==> p !in end.files)
            && (!EverTracked(s, sources, p) ==>
                  (p in end.files <==> p in s.files) && (p in s.files ==> end.files[p] == s.files[p]))
  {
    var n := |sources| - 1;
    var earlier := sources[..n];
    if earlier != [] {
      SyncAllMirrors(s, earlier, p);
    }
    assert EverTracked(s, sources, p) <==> EverTracked(s, earlier, p) || p in sources[n] by {
      if i :| 0 <= i < |sources| && p in sources[i] {
        if i < n { assert p in earlier[i]; }
      }
      if i :| 0 <= i < |earlier| && p in earlier[i] { assert p in sources[i]; }
    }
  }

  /** Repeating the last sync creates, updates and removes nothing. */
  lemma RepeatIdle(files: Files, tracked: set<string>, src: Source)
    ensures var after := Synced(files, tracked, src);
            && Synced(after, src.Keys, src) == after
            && Created(after, src) == {} && Updated(after, src) == {} && Removed(after, src.Keys, src) == {}
  {
    var after := Synced(files, tracked, src);
    assert Synced(after, src.Keys, src) == after;
    assert forall p :: p !in Created(after, src) && p !in Updated(after, src) && p !in Removed(after, src.Keys, src);
  }

  predicate IsFile(files: Files, p: string) {
    p in files && files[p].Regular?
  }

  /** The three counts are those of the paths that became files, of the files whose content or mode
      changed, and of the paths that went away. */
  lemma CountsTellChanges(files: Files, tracked: set<string>, src: Source, p: string)
    ensures var after := Synced(files, tracked, src);
            && (p in Created(files, src) <==> IsFile(after, p) && !IsFile(files, p))
            && (p in Updated(files, src) <==> IsFile(after, p) && IsFile(files, p) && after[p] != files[p])
            && (p in Removed(files, tracked, src) <==> p in files && p !in after)
  {
    var after := Synced(files, tracked, src);
    assert p in src ==> p in after && after[p] == Regular(src[p]);
    assert p !in src && p in after ==> p in files && after[p] == files[p];
  }

  /** What verification must say when this is found, or nothing, at a path that was synced. */
  function DriftsOf(p: string, expected: Stamp, found: Option<Node>): set<Drift> {
    match found
    case None => {MissingFile(p)}
    case Some(Link(target)) => if target.Some? then {BecameLink(p)} else {MissingFile(p)}
    case Some(Regular(stamp)) =>
      (if stamp.content != expected.content then {ContentDrift(p)} else {})
      + (if stamp.mode != expected.mode then {PermissionDrift(p)} else {})
  }

  /** After a sync, whatever happens to one synced file is reported as that and nothing else is. */
  lemma TamperingSeen(files: Files, tracked: set<string>, src: Source, p: string, found: Option<Node>, d: Drift)
    requires p in src
    ensures var after := Synced(files, tracked, src);
            Drifts(if found.Some? then after[p := found.value] else after - {p}, src, d)
            <==> d in DriftsOf(p, src[p], found)
  {
    var after := Synced(files, tracked, src);
    assert d.path in src && d.path != p ==> after[d.path] == Regular(src[d.path]);
  }

  /** The whole promise at once, on one directory: sync any sources in turn, verify, sync the last again. */
  method SyncSequence(d: Deployment, sources: seq<Source>) returns (code: nat, created: nat, updated: nat, removed: nat)
    requires sources != []
    modifies d
    ensures State(d.files, d.Tracked()) == SyncAll(old(State(d.files, d.Tracked())), sources)
    ensures code == 0 && created == updated == removed == 0
  {
    ghost var start := State(d.files, d.Tracked());
    for i := 0 to |sources|
      invariant State(d.files, d.Tracked()) == SyncAll(start, sources[..i])
      invariant i > 0 ==> d.manifest == Some(sources[i - 1])
    {
      assert sources[..i + 1][..i] == sources[..i];
      var _, _, _ := d.Sync(sources[i]);
    }
    assert sources[..|sources|] == sources;
    ghost var before := SyncAll(start, sources[..|sources| - 1]);
    RepeatIdle(before.files, before.tracked, sources[|sources| - 1]);
    var drifts;
    code, drifts := d.Verify();
    created, updated, removed := d.Sync(sources[|sources| - 1]);
  }
}
