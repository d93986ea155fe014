/** The registry as the driver keeps it: global slots and cache, updated in place by loops that
    stop at the first provider with an answer. */
module Storage {
  import opened Errno
  import opened StorageRegistry

  class Registry {
    var initDone: bool
    var slots: seq<Slot>           // gbms_providers, its first gbms_providers_count entries
    var cache: Cache               // gbms_cache

    ghost predicate Valid()
      reads this
    {
      RegistryOk(slots) && Lawful(slots) && CacheOk(slots, cache)
    }

    constructor ()
      ensures Valid() && !initDone && slots == [] && cache == map[]
    {
      initDone, slots, cache := false, [], map[];
    }

    method FindSlot(name: string) returns (index: int)
      requires RegistryOk(slots)
      ensures index == SlotFor(slots, name)
    {
      index := 0;
      while index < |slots|
        invariant 0 <= index <= |slots|
        invariant forall k | 0 <= k < index :: !(slots[k].name <= name)
      {
        if slots[index].name <= name {
          assert FirstMatch(slots, name) == index;
          if slots[index].dsc.None? {
            break;
          }
          return EBUSY;
        }
        index := index + 1;
      }
      if index == PROVIDERS_MAX {
        return ENOMEM;
      }
    }

    /** gbms_storage_register_internal; a missing descriptor registers a placeholder. */
    method RegisterInternal(desc: Option<Device>, name: Option<string>) returns (code: int)
      requires Valid()
      requires name.Some? ==> Lawful(Registered(slots, desc, name.value))
      modifies this`slots
      ensures Valid() && Grows(old(slots), slots)
      ensures name.None? ==> code == EINVAL && slots == old(slots)
      ensures name.Some? ==> IsRegistration(old(slots), slots, desc, name.value, code)
      ensures name.Some? ==> code == RegisterCode(old(slots), name.value)
      ensures name.Some? ==> slots == Registered(old(slots), desc, name.value)
    {
      if name.Some? {
        RegisterMeans(slots, desc, name.value);
      }
      if name.None? || |name.value| >= NAME_MAX {
        return EINVAL;
      }
      RegisterKeepsOk(slots, desc, name.value);
      var index := FindSlot(name.value);
      if index < 0 {
        return index;
      }
      var slot := Slot(name.value, desc);
      slots := if index == |slots| then slots + [slot] else slots[index := slot];
      code := 0;
    }

    /** gbms_cache_read. */
    method CacheRead(tag: Tag, count: nat) returns (r: Reply)
      requires CacheOk(slots, cache)
      ensures r == HitRead(slots, cache, tag, count)
    {
      if tag !in cache {
        return Reply(ENOENT, []);
      }
      var d := slots[cache[tag]].dsc.value;
      r := if !d.hasRead then Reply(EACCES, []) else d.answer(tag, count);
    }

    /** gbms_storage_read. A reply with the uncached scan's code and data, whenever the tag is
        not cached at a provider that cannot be read. */
    method Read(tag: Tag, hasData: bool, count: nat, room: bool) returns (r: Reply)
      requires Valid()
      modifies this`cache
      ensures Valid()
      ensures !initDone ==> r == Reply(EPROBE_DEFER, []) && cache == old(cache)
      ensures initDone && !hasData && count > 0 ==> r == Reply(EINVAL, []) && cache == old(cache)
      ensures initDone && (hasData || count == 0) ==>
                && r == CachedRead(slots, old(cache), tag, count)
                && cache == CacheAfter(slots, old(cache), StorageRegistry.Read(tag, count, room))
                && ((tag in old(cache) ==> slots[old(cache)[tag]].dsc.value.hasRead) <==>
                    r == ScanRead(slots, tag, count))
    {
      if !initDone {
        return Reply(EPROBE_DEFER, []);
      }
      if !hasData && count > 0 {
        return Reply(EINVAL, []);
      }
      ReadTransparentIff(slots, cache, tag, count);
      var lateInits := false;
      r := CacheRead(tag, count);
      if r.code == ENOENT {
        var i := 0;
        r := Reply(ENOENT, []);
        while r.code == ENOENT && i < |slots|
          invariant 0 <= i <= |slots|
          invariant r.code == ENOENT ==> r == Reply(ENOENT, []) && cache == old(cache)
          invariant r.code == ENOENT ==> forall k | 0 <= k < i :: !Serves(slots[k], tag, true)
          invariant r.code == ENOENT ==> (lateInits <==> exists k | 0 <= k < i :: slots[k].dsc.None?)
          invariant r.code != ENOENT ==>
                      && Owner(slots, tag, true) < |slots| && r == ScanRead(slots, tag, count)
                      && cache == Remember(slots, old(cache), tag, true, ENOENT, r.code, room)
        {
          if slots[i].dsc.None? {
            lateInits := true;
          } else if slots[i].dsc.value.hasRead {
            assert slots[i].dsc.value.Ok();
            var answer := slots[i].dsc.value.answer(tag, count);
            if answer.code != ENOENT {
              assert Owner(slots, tag, true) == i;
              r := answer;
              if r.code >= 0 && room {
                cache := cache[tag := i];
              }
            }
          }
          i := i + 1;
        }
      }
      if lateInits && r.code == ENOENT {
        r := Reply(EPROBE_DEFER, []);
      }
    }

    /** gbms_cache_write: the code, and the slot that performed the write, if one did. */
    method CacheWrite(tag: Tag, data: seq<int>, after: Device) returns (code: int)
      requires CacheOk(slots, cache)
      modifies this`slots
      ensures code == HitWrite(old(slots), cache, tag, data)
      ensures slots == if code == ENOENT || !old(slots)[cache[tag]].dsc.value.hasWrite then old(slots)
                       else Written(old(slots), cache[tag], after)
    {
      if tag !in cache {
        return ENOENT;
      }
      var d := slots[cache[tag]].dsc.value;
      if !d.hasWrite {
        return EACCES;
      }
      code := d.accept(tag, data);
      if code != ENOENT {
        slots := Written(slots, cache[tag], after);
      }
    }

    /** The scan of a write: the first provider that does not answer -ENOENT performs it. */
    method WriteProviders(tag: Tag, data: seq<int>, after: Device, room: bool) returns (code: int)
      requires Lawful(slots)
      modifies this`slots, this`cache
      ensures code == ScanWrite(old(slots), tag, data)
      ensures slots == Written(old(slots), Owner(old(slots), tag, false), after)
      ensures cache == Remember(old(slots), old(cache), tag, false, ENOENT, code, room)
    {
      var lateInits, i := false, 0;
      code := ENOENT;
      while code == ENOENT && i < |slots|
        invariant 0 <= i <= |slots|
        invariant code == ENOENT ==> slots == old(slots) && cache == old(cache)
        invariant code == ENOENT ==> forall k | 0 <= k < i :: !Serves(slots[k], tag, false)
        invariant code == ENOENT ==> (lateInits <==> exists k | 0 <= k < i :: slots[k].dsc.None?)
        invariant code != ENOENT ==>
                    && Owner(old(slots), tag, false) < |slots| && code == ScanWrite(old(slots), tag, data)
                    && slots == Written(old(slots), Owner(old(slots), tag, false), after)
                    && cache == Remember(old(slots), old(cache), tag, false, ENOENT, code, room)
      {
        if slots[i].dsc.None? {
          lateInits := true;
        } else if slots[i].dsc.value.hasWrite {
          assert slots[i].dsc.value.Ok();
          var answer := slots[i].dsc.value.accept(tag, data);
          if answer != ENOENT {
            assert Owner(slots, tag, false) == i;
            code := answer;
            slots := Written(slots, i, after);
            if code >= 0 && room {
              cache := cache[tag := i];
            }
          }
        }
        i := i + 1;
      }
      if lateInits && code == ENOENT {
        code := EPROBE_DEFER;
      }
    }

    /** gbms_storage_write; `after` is what the provider that performs the write becomes. */
    method Write(tag: Tag, hasData: bool, data: seq<int>, after: Device, room: bool) returns (code: int)
      requires Valid()
      requires LawfulRun(slots, [StorageRegistry.Write(tag, data, after, room)])
      modifies this`slots, this`cache
      ensures Valid()
      ensures !initDone ==> code == EPROBE_DEFER && slots == old(slots) && cache == old(cache)
      ensures initDone && !hasData && data != [] ==> code == EINVAL && slots == old(slots) && cache == old(cache)
      ensures initDone && (hasData || data == []) ==>
                && code == CachedWrite(old(slots), old(cache), tag, data)
                && slots == SlotsAfter(old(slots), StorageRegistry.Write(tag, data, after, room))
                && cache == CacheAfter(old(slots), old(cache), StorageRegistry.Write(tag, data, after, room))
    {
      if !initDone {
        return EPROBE_DEFER;
      }
      if !hasData && data != [] {
        return EINVAL;
      }
      ghost var op := StorageRegistry.Write(tag, data, after, room);
      StepsAgree(slots, cache, op);
      WriteKeepsValid(slots, cache, op);
      code := CacheWrite(tag, data, after);
      if code == ENOENT {
        code := WriteProviders(tag, data, after, room);
      }
    }
  }

  lemma WriteKeepsValid(slots: seq<Slot>, cache: Cache, op: Op)
    requires op.Write? && RegistryOk(slots) && CacheOk(slots, cache) && LawfulRun(slots, [op])
    ensures RegistryOk(SlotsAfter(slots, op)) && Lawful(SlotsAfter(slots, op))
    ensures CacheOk(SlotsAfter(slots, op), CacheAfter(slots, cache, op))
  {
    assert LawfulRun(SlotsAfter(slots, op), [op][1..]);
  }
}
