/**
 The container life cycle: one container of a host, its image, its systemd unit file, and the steps that create,
 start, recreate, restart, stop and remove it.  Whether a pull, a unit action or a removal succeeds is left open at
 every single call, so what is proved holds for all outcomes.
*/
module DockerWorker {
  import opened Common

  /** The engine's short status begins with "Up " for the first two. */
  datatype Status = Running | Paused | Created | Restarting | Exited

  predicate IsUp(s: Status) {
    s.Running? || s.Paused?
  }

  /** `settings` is everything recorded at creation that the comparisons look at, image and state aside. */
  datatype Container = Container(id: nat, settings: string, imageName: string, imageId: nat, status: Status)

  datatype Strategy = CopyOnce | CopyAlways | NoStrategy

  /** `accepts` says which recorded settings the comparisons do not tell from the wanted ones; `tagged`, whether the
      image is named with its tag. */
  datatype Params = Params(
    settings: string, accepts: string -> bool, image: string, tagged: bool, state: string, oneshot: bool, detach: bool,
    removeOnExit: bool, ignoreMissing: bool, strategy: Strategy, volumes: set<string>, unitFile: string)

  /** The steps that interrupt or destroy a container, with whether the wanted image was there at the time, and whether
      systemd or the engine stopped it. */
  datatype Step = Stopped(id: nat, imagePresent: bool, byUnit: bool) | Removed(id: nat, imagePresent: bool)

  /** The recorded state name, as the comparison of states reads it. */
  function StateName(s: Status): string {
    match s
    case Running => "running"
    case Paused => "paused"
    case Created => "created"
    case Restarting => "restarting"
    case Exited => "exited"
  }

  predicate StateDiffers(wanted: string, s: Status) {
    !(wanted == "started" && s.Running?) && wanted != StateName(s)
  }

  /** Which wanted states a container satisfies. */
  lemma StateMatchesExactly(wanted: string, s: Status)
    ensures !StateDiffers(wanted, s) <==>
            || (s.Running? && wanted in {"running", "started"}) || (s.Paused? && wanted == "paused")
            || (s.Created? && wanted == "created") || (s.Restarting? && wanted == "restarting")
            || (s.Exited? && wanted == "exited")
  {
  }

  /** A container differs from what is wanted if it is another image, other settings or another state. */
  predicate Differs(p: Params, image: Option<nat>, c: Container) {
    || !p.accepts(c.settings)
    || image != Some(c.imageId)
    || c.imageName != p.image
    || StateDiffers(p.state, c.status)
  }

  /** The container was made from these parameters and from the image as it is now. */
  predicate MadeFor(p: Params, image: Option<nat>, c: Container) {
    p.accepts(c.settings) && image == Some(c.imageId) && c.imageName == p.image
  }

  class Worker {
    const params: Params

    /** The engine and the unit directory. */
    var image: Option<nat>
    var container: Option<Container>
    var unitFile: Option<string>
    var volumes: set<string>
    var nextId: nat

    var changed: bool

    /** What the container returned, where the run has waited for it. */
    var exitCode: Option<int>

    /** Every interruption so far. */
    ghost var steps: seq<Step>

    constructor (params: Params, image: Option<nat>, container: Option<Container>, unitFile: Option<string>,
                 volumes: set<string>, nextId: nat)
      requires params.accepts(params.settings) && (container.Some? ==> container.value.id < nextId)
      ensures Valid() && !changed && steps == [] && this.params == params && this.image == image
      ensures this.container == container && this.unitFile == unitFile && this.volumes == volumes
    {
      this.params, this.image, this.container, this.unitFile := params, image, container, unitFile;
      this.volumes, this.nextId, changed, exitCode, steps := volumes, nextId, false, None, [];
    }

    /** What is created from the parameters compares equal to them. */
    ghost predicate Valid()
      reads this
    {
      params.accepts(params.settings) && (container.Some? ==> container.value.id < nextId)
    }

    /** All interruptions since `past` happened while the image was there. */
    ghost predicate ImageBeforeRemoval(past: seq<Step>)
      reads this
    {
      past <= steps && forall i :: |past| <= i < |steps| ==> steps[i].imagePresent
    }

    /** Nothing is left to do: an up container that does not differ. */
    predicate Settled()
      reads this
    {
      container.Some? && IsUp(container.value.status) && !Differs(params, image, container.value)
    }

    // ---------------------------------------------------------------- unit files

    method CreateUnitFile() returns (written: bool)
      modifies `unitFile
      ensures unitFile == Some(params.unitFile) && written == (old(unitFile) != unitFile)
    {
      written := unitFile != Some(params.unitFile);
      if written {
        unitFile := Some(params.unitFile);
      }
    }

    method RemoveUnitFile() returns (removed: bool)
      modifies `unitFile
      ensures unitFile == None && removed == old(unitFile).Some?
    {
      removed := unitFile.Some?;
      unitFile := None;
    }

    // ---------------------------------------------------------------- engine steps

    /** The id of the only image found by the given name; a name without tag may find any number of images. */
    method GetImageId() returns (id: Option<nat>)
      ensures params.tagged ==> id == image
    {
      var found: Option<nat> := *;
      id := if params.tagged then image else found;
    }

    /** A pull leaves some image under the tag, or fails and ends the run; `changed` is overwritten, not added to. */
    method PullImage() returns (ok: bool)
      modifies `image, `changed
      ensures ok ==> image.Some? && (params.tagged ==> changed == (old(image) != image))
      ensures !ok ==> image == old(image) && changed == old(changed)
    {
      var before := GetImageId();
      ok := *;
      if ok {
        var id: nat := *;
        image := Some(id);
        var after := GetImageId();
        changed := before != after;
      }
    }

    method SetStatus(s: Status)
      requires container.Some?
      modifies `container
      ensures container == Some(old(container).value.(status := s))
    {
      container := Some(container.value.(status := s));
    }

    /** Starting the unit: once systemd reports it running, so is the container; otherwise anything may be. */
    method StartUnit() returns (ok: bool)
      requires container.Some?
      modifies `container
      ensures container.Some? && container.value == old(container).value.(status := container.value.status)
      ensures ok ==> container.value.status == Running
    {
      ok := *;
      var s: Status := *;
      SetStatus(if ok then Running else s);
    }

    /** The result of stopping the unit is not looked at. */
    method StopUnit()
      requires container.Some?
      modifies `container
      ensures container.Some? && container.value == old(container).value.(status := container.value.status)
    {
      var s: Status := *;
      SetStatus(s);
    }

    // ---------------------------------------------------------------- the life cycle

    method StopContainer() returns (ok: bool)
      requires Valid()
      modifies `container, `changed, `steps
      ensures Valid() && container.Some? == old(container).Some?
      ensures container.Some? ==> container.value == old(container).value.(status := container.value.status)
      ensures ok <==> old(container).Some? || params.ignoreMissing
      ensures var interrupted := old(container).Some? && !old(container).value.status.Exited?;
        && changed == (old(changed) || interrupted)
        && steps == old(steps) + (
             if interrupted then [Stopped(old(container).value.id, image.Some?, unitFile.Some?)] else [])
        && (!interrupted ==> container == old(container))
        && (interrupted && unitFile.None? ==> container.value.status.Exited?)
    {
      if container.None? {
        return params.ignoreMissing;
      }
      if !container.value.status.Exited? {
        changed := true;
        if unitFile.None? {
          steps := steps + [Stopped(container.value.id, image.Some?, false)];
          SetStatus(Exited);
        } else {
          steps := steps + [Stopped(container.value.id, image.Some?, true)];
          StopUnit();
        }
      }
      ok := true;
    }

    /** The engine may report an error although the container is gone; only one that is still there ends the run. */
    method RemoveContainer() returns (ok: bool)
      requires Valid()
      modifies `container, `unitFile, `changed, `steps
      ensures Valid() && unitFile == None
      ensures changed == (old(changed) || old(unitFile).Some? || old(container).Some?)
      ensures ok ==> container.None?
      ensures !ok ==> container == old(container) && container.Some?
      ensures steps == old(steps) +
                       (if ok && old(container).Some? then [Removed(old(container).value.id, image.Some?)] else [])
    {
      var removed := RemoveUnitFile();
      changed := changed || removed;
      ok := true;
      if container.Some? {
        changed := true;
        ok := *;
        if ok {
          steps := steps + [Removed(container.value.id, image.Some?)];
          container := None;
          removed := RemoveUnitFile();
        }
      }
    }

    method CreateContainer()
      requires Valid() && container.None? && image.Some?
      modifies `container, `volumes, `nextId, `unitFile, `changed
      ensures Valid() && changed
      ensures container == Some(Container(old(nextId), params.settings, params.image, image.value, Created))
      ensures nextId == old(nextId) + 1 && volumes == old(volumes) + params.volumes
      ensures unitFile == if params.oneshot then old(unitFile) else Some(params.unitFile)
    {
      changed := true;
      volumes := volumes + params.volumes;
      container := Some(Container(nextId, params.settings, params.image, image.value, Created));
      nextId := nextId + 1;
      if !params.oneshot {
        var written := CreateUnitFile();
      }
    }

    /** Waits for a container that is not detached, and tidies up after it. */
    method AwaitExit() returns (ok: bool)
      requires Valid() && container.Some? && image.Some?
      modifies `container, `unitFile, `changed, `exitCode, `steps
      ensures Valid() && ImageBeforeRemoval(old(steps)) && (old(changed) ==> changed)
      ensures exitCode.Some? && (ok <==> exitCode == Some(0) && (params.removeOnExit ==> container.None?))
      ensures ok && params.removeOnExit ==> container.None? && unitFile.None?
      ensures ok && !params.removeOnExit ==> container == Some(old(container).value.(status := Exited))
    {
      var code: int := *;
      exitCode := Some(code);
      SetStatus(Exited);
      if params.removeOnExit {
        ok := StopContainer();
        ok := RemoveContainer();
        if !ok {
          return;
        }
      }
      ok := code == 0;
    }

    /** The container is stopped, unless it has exited, and then removed; or it cannot be removed and the run fails. */
    ghost predicate Cleared(past: seq<Step>, c: Container, byUnit: bool, ok: bool)
      reads this
    {
      var stops := past + if c.status.Exited? then [] else [Stopped(c.id, true, byUnit)];
      || stops + [Removed(c.id, true)] <= steps
      || (steps == stops && !ok && container.Some? && container.value == c.(status := container.value.status))
    }

    /** Stops and removes a container that differs; what differs needs the image to be there. */
    method ClearDiffering() returns (ok: bool)
      requires Valid() && image.Some?
      modifies `container, `unitFile, `changed, `steps
      ensures Valid() && ImageBeforeRemoval(old(steps)) && (old(changed) ==> changed)
      ensures var differs := old(container).Some? && Differs(params, image, old(container).value);
        && (differs ==> (ok <==> container.None?) && changed)
        && (differs ==> Cleared(old(steps), old(container).value, old(unitFile).Some?, ok))
        && (!differs ==>
              && ok && container == old(container) && unitFile == old(unitFile)
              && steps == old(steps) && changed == old(changed))
    {
      ok := true;
      if container.Some? && Differs(params, image, container.value) {
        ok := StopContainer();
        ok := RemoveContainer();
      }
    }

    method BringUp() returns (ok: bool)
      requires Valid() && container.Some?
      modifies `container, `unitFile, `changed
      ensures Valid() && container.Some? && container.value == old(container).value.(status := container.value.status)
      ensures IsUp(old(container).value.status) ==>
        ok && container == old(container) && unitFile == old(unitFile) && changed == old(changed)
      ensures !IsUp(old(container).value.status) ==>
        && changed && (ok ==> container.value.status.Running?) && (params.oneshot ==> ok)
        && unitFile == if params.oneshot then old(unitFile) else Some(params.unitFile)
    {
      ok := true;
      if !IsUp(container.value.status) {
        changed := true;
        if params.oneshot {
          SetStatus(Running);
        } else {
          var written := CreateUnitFile();
          ok := StartUnit();
        }
      }
    }

    /** Once the image is there: a differing container makes way for a new one, and one that is down is started. */
    method Deploy() returns (ok: bool)
      requires Valid() && image.Some?
      modifies `container, `volumes, `nextId, `unitFile, `changed, `steps
      ensures Valid() && ImageBeforeRemoval(old(steps)) && (old(changed) ==> changed)
      ensures ok ==> container.Some? && IsUp(container.value.status) && MadeFor(params, image, container.value)
      ensures ok && container.value.status.Paused? ==> container == old(container) && params.state == "paused"
      ensures ok && !params.oneshot && container != old(container) ==> unitFile == Some(params.unitFile)
      ensures old(container).None? ==> changed && (params.oneshot ==> ok)
      ensures old(Settled()) ==>
        && ok && changed == old(changed) && steps == old(steps) && container == old(container)
        && unitFile == old(unitFile) && volumes == old(volumes)
      ensures var replaced := old(container).None? || Differs(params, image, old(container).value);
        && (replaced && ok ==>
            container.value.id >= old(nextId) && changed && volumes == old(volumes) + params.volumes)
        && (replaced && old(container).Some? ==>
            Cleared(old(steps), old(container).value, old(unitFile).Some?, ok))
        && (!replaced ==> container.Some? && container.value.id == old(container).value.id && steps == old(steps))
        && (!replaced && IsUp(old(container).value.status) ==>
              ok && container == old(container) && unitFile == old(unitFile) && volumes == old(volumes))
    {
      ok := ClearDiffering();
      if !ok {
        return;
      }
      if container.None? {
        CreateContainer();
      }
      ok := BringUp();
    }

    /**
     Brings the container up as wanted.  A container that neither differs nor is down is left alone; a failed pull
     leaves everything as it was; whatever is interrupted, is interrupted with the image at hand.
     */
    method StartContainer() returns (ok: bool)
      requires Valid()
      modifies this
      ensures Valid() && ImageBeforeRemoval(old(steps))
      ensures old(changed) && (params.tagged || old(image).Some? || old(container).None?) ==> changed
      ensures image.None? ==>
        && !ok && container == old(container) && unitFile == old(unitFile)
        && steps == old(steps) && changed == old(changed)
      ensures old(image).Some? ==> image == old(image)
      ensures ok && params.detach ==>
        container.Some? && IsUp(container.value.status) && MadeFor(params, image, container.value)
      ensures ok && params.detach && container.value.status.Paused? ==>
              container == old(container) && params.state == "paused"
      ensures ok && params.detach && !params.oneshot && container != old(container) ==>
              unitFile == Some(params.unitFile)
      ensures ok && !params.detach && params.removeOnExit ==> container.None? && unitFile.None?
      ensures ok && !params.detach && !params.removeOnExit ==>
        container.Some? && container.value.status.Exited? && MadeFor(params, image, container.value)
      ensures if params.detach then exitCode == old(exitCode) else ok ==> exitCode == Some(0)
      ensures old(image).Some? && old(container).None? && params.oneshot && params.detach ==> ok
      ensures old(Settled()) && params.detach ==>
        && ok && changed == old(changed) && steps == old(steps) && image == old(image)
        && container == old(container) && unitFile == old(unitFile) && volumes == old(volumes)
      ensures var replaced := old(container).None? || Differs(params, image, old(container).value);
        && (replaced && ok && params.detach ==>
            container.value.id >= old(nextId) && changed && volumes == old(volumes) + params.volumes)
        && (replaced && old(container).Some? && image.Some? ==>
            Cleared(old(steps), old(container).value, old(unitFile).Some?, ok))
        && (!replaced && params.detach ==>
              container.Some? && container.value.id == old(container).value.id && steps == old(steps))
        && (!replaced && params.detach && IsUp(old(container).value.status) ==>
              ok && container == old(container) && unitFile == old(unitFile) && volumes == old(volumes))
    {
      if image.None? {
        ok := PullImage();
        if !ok {
          return;
        }
      }
      ok := Deploy();
      if ok && !params.detach {
        ok := AwaitExit();
      }
    }

    /** Interrupts the container where it is; a unit file is brought up to date first. */
    method RestartContainer() returns (ok: bool)
      requires Valid()
      modifies `container, `unitFile, `changed, `steps
      ensures Valid()
      ensures old(container).None? ==>
        && !ok && container == old(container) && unitFile == old(unitFile)
        && changed == old(changed) && steps == old(steps)
      ensures old(container).Some? ==>
        && changed && container.Some? && container.value == old(container).value.(status := container.value.status)
        && unitFile == (if params.oneshot then old(unitFile) else Some(params.unitFile))
        && steps == old(steps) + [Stopped(old(container).value.id, image.Some?, !params.oneshot)]
      ensures ok ==> container.Some? && container.value.status.Running?
      ensures params.oneshot && old(container).Some? ==> ok
    {
      if container.None? {
        return false;
      }
      changed := true;
      if !params.oneshot {
        steps := steps + [Stopped(container.value.id, image.Some?, true)];
        var written := CreateUnitFile();
        ok := StartUnit();
      } else {
        steps := steps + [Stopped(container.value.id, image.Some?, false)];
        SetStatus(Exited);
        SetStatus(Running);
        ok := true;
      }
    }

    /** Pulls first, so that a failed pull does not leave the container stopped. */
    method Recreate() returns (ok: bool)
      requires Valid() && container.Some? && changed
      modifies this
      ensures Valid() && changed && ImageBeforeRemoval(old(steps))
      ensures image.None? ==> !ok && container == old(container) && unitFile == old(unitFile) && steps == old(steps)
      ensures ok && params.detach ==>
        && container.Some? && MadeFor(params, image, container.value)
        && container.value.id >= old(nextId) && container.value.status.Running?
      ensures ok && params.detach && !params.oneshot ==> unitFile == Some(params.unitFile)
      ensures image.Some? ==> Cleared(old(steps), old(container).value, old(unitFile).Some?, ok)
    {
      if image.None? {
        ok := PullImage();
        if !ok {
          return;
        }
      }
      ok := StopContainer();
      ok := RemoveContainer();
      if !ok {
        return;
      }
      ok := StartContainer();
    }

    /**
     Replaces a container that differs, or under the copy-once strategy any container; restarts one that does not
     differ under the copy-always strategy.  A failed pull comes before any interruption.
     */
    method RecreateOrRestartContainer() returns (ok: bool)
      requires Valid()
      modifies this
      ensures Valid() && changed && ImageBeforeRemoval(old(steps))
      ensures image.None? ==> !ok && container == old(container) && unitFile == old(unitFile) && steps == old(steps)
      ensures ok && params.detach ==> container.Some? && MadeFor(params, image, container.value)
      ensures var replaced :=
                old(container).None? || params.strategy.CopyOnce? || Differs(params, old(image), old(container).value);
        && (replaced && ok && params.detach ==> container.value.id >= old(nextId) && container.value.status.Running?)
        && (replaced && ok && params.detach && !params.oneshot ==> unitFile == Some(params.unitFile))
        && (replaced && old(container).Some? && image.Some? ==>
            Cleared(old(steps), old(container).value, old(unitFile).Some?, ok))
        && (!replaced && params.strategy.CopyAlways? ==>
              && steps == old(steps) + [Stopped(old(container).value.id, image.Some?, !params.oneshot)]
              && unitFile == (if params.oneshot then old(unitFile) else Some(params.unitFile)))
        && (!replaced && params.strategy.CopyAlways? && ok ==>
            container == Some(old(container).value.(status := Running)))
        && (!replaced && params.strategy.NoStrategy? ==>
            ok && container == old(container) && unitFile == old(unitFile) && steps == old(steps))
    {
      changed := true;
      if container.None? {
        ok := StartContainer();
        return;
      }
      if params.strategy.CopyOnce? || Differs(params, image, container.value) {
        ok := Recreate();
      } else if params.strategy.CopyAlways? {
        ok := RestartContainer();
      } else {
        ok := true;
      }
    }
  }

  /** The container that a start begins with is paused, wanted so, and matches the image that the start ends with. */
  predicate StaysPaused(p: Params, image: Option<nat>, before: Option<Container>) {
    p.state == "paused" && before.Some? && before.value.status.Paused? && MadeFor(p, image, before.value)
  }

  /**
   The start action run twice: after a successful first run the second one succeeds and reports nothing exactly when
   the wanted state is a running one, or a paused one that the first run found already.  Where the image is there
   before the first run, the latter says that the container was settled to begin with.
   */
  method StartTwice(w: Worker) returns (first: bool, second: bool, again: bool)
    requires w.Valid() && w.params.detach
    modifies w
    ensures first ==>
      (second && !again <==>
         w.params.state in {"running", "started"} || StaysPaused(w.params, w.image, old(w.container)))
    ensures first && old(w.image).Some? ==>
      (second && !again <==>
         w.params.state in {"running", "started"} || (w.params.state == "paused" && old(w.Settled())))
    ensures old(w.image).Some? && old(w.container).None? && w.params.oneshot ==> first
    ensures !first ==> !second && !again
    ensures first && second && !again ==> w.container.Some? && IsUp(w.container.value.status)
  {
    first := w.StartContainer();
    second, again := false, false;
    if first {
      ghost var kept := w.Settled();
      w.changed := false;
      second := w.StartContainer();
      again := w.changed;
      assert kept <==> second && !again;
    }
  }

  /**
   A container that is wanted "exited", with its image there and no container yet: the first run succeeds, and the
   second one fails or reports a change.
   */
  method ExitedIsStartedAgain(settings: string, image: string) returns (first: bool, second: bool, again: bool)
    ensures first && (second ==> again)
  {
    var accepts := s => s == settings;
    var params := Params(settings, accepts, image, true, "exited", true, true, false, true, NoStrategy, {}, "");
    var w := new Worker(params, Some(0), None, None, {}, 0);
    first, second, again := StartTwice(w);
  }
}
