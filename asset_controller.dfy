/**
 * AssetController and the sprite side of NetworkController as objects whose fields the
 * methods update in place. Each method is tied to the state machine of SpriteCacheSpec
 * through `Model()`, so every property proved there holds of these objects.
 */
module AssetControl {
  import opened Wrappers
  import opened Collections
  import opened SpriteCacheSpec

  /**
   * The sprite download side of NetworkController: GetSprite starts one download per call,
   * and every download ends exactly once, writing its result (null on failure) into the
   * record it was given and handing the record back.
   */
  class SpriteFetcher {
    var outstanding: seq<SpriteRequest>
    ghost var dispatched: seq<Url>

    constructor ()
      ensures outstanding == [] && dispatched == []
    {
      outstanding := [];
      dispatched := [];
    }

    /** GetSprite(url, data, callback): start a download of `url` that carries `data`. */
    method GetSprite(url: Url, data: SpriteRequest)
      modifies this
      ensures outstanding == old(outstanding) + [data]
      ensures dispatched == old(dispatched) + [url]
    {
      outstanding := outstanding + [data];
      dispatched := dispatched + [url];
    }

    /** Download i ends with `result`, which is written into its record: the record comes back. */
    method Finish(i: nat, result: Option<Sprite>) returns (data: SpriteRequest)
      requires i < |outstanding|
      modifies this
      ensures data == old(outstanding[i]).(sprite := result)
      ensures outstanding == RemoveAt(old(outstanding), i)
      ensures dispatched == old(dispatched)
    {
      data := outstanding[i].(sprite := result);
      outstanding := RemoveAt(outstanding, i);
    }
  }

  class AssetController {
    var spriteCache: map<Url, Option<Sprite>>
    var loadingSprites: set<Url>
    var pendingRequests: map<Url, seq<SpriteRequest>>
    const network: SpriteFetcher
    /** Every callback run so far, with the record it received. */
    ghost var log: seq<SpriteRequest>
    /** Every record FetchSprite has stamped so far. */
    ghost var issued: seq<SpriteRequest>

    ghost function Model(): State
      reads this, network
    {
      State(spriteCache, loadingSprites, pendingRequests, network.outstanding, network.dispatched, log, issued)
    }

    ghost predicate Valid()
      reads this, network
    {
      Inv(Model())
    }

    /** The controller starts empty, with a fetcher that has not started any download. */
    constructor (network: SpriteFetcher)
      requires network.outstanding == [] && network.dispatched == []
      ensures this.network == network
      ensures Model() == Init() && Valid()
    {
      spriteCache := map[];
      loadingSprites := {};
      pendingRequests := map[];
      this.network := network;
      log := [];
      issued := [];
      new;
      InitInv();
    }

    /**
     * FetchSprite(url, data, callback): stamp the record, then answer from the cache,
     * queue behind the download in flight, or start the one download for `url`.
     */
    method FetchSprite(url: Url, data: SpriteRequest, callback: CallbackId)
      modifies this, network
      ensures old(Valid()) ==> Valid()
      ensures Model() == Fetch(old(Model()), url, data, callback)
      ensures issued == old(issued) + [Stamp(data, url, callback)]
      ensures spriteCache == old(spriteCache)
      ensures url in old(spriteCache) ==>
        && log == old(log) + [Stamp(data, url, callback).(sprite := old(spriteCache)[url])]
        && loadingSprites == old(loadingSprites) && pendingRequests == old(pendingRequests)
        && network.outstanding == old(network.outstanding) && network.dispatched == old(network.dispatched)
      ensures url !in old(spriteCache) && url in old(loadingSprites) ==>
        && pendingRequests == old(pendingRequests)[url := PendingOf(old(pendingRequests), url) + [Stamp(data, url, callback)]]
        && log == old(log) && loadingSprites == old(loadingSprites)
        && network.outstanding == old(network.outstanding) && network.dispatched == old(network.dispatched)
      ensures url !in old(spriteCache) && url !in old(loadingSprites) ==>
        && loadingSprites == old(loadingSprites) + {url}
        && network.outstanding == old(network.outstanding) + [Stamp(data, url, callback)]
        && network.dispatched == old(network.dispatched) + [url]
        && log == old(log) && pendingRequests == old(pendingRequests)
    {
      ghost var before := Model();
      var request := data.(url := url, callback := callback);
      issued := issued + [request];
      if url in spriteCache {
        log := log + [request.(sprite := spriteCache[url])];
        assert Model() == Hit(before, request);
      } else if url in loadingSprites {
        if url !in pendingRequests {
          pendingRequests := pendingRequests[url := []];
        }
        pendingRequests := pendingRequests[url := pendingRequests[url] + [request]];
        assert pendingRequests == before.pending[url := PendingOf(before.pending, url) + [request]];
        assert Model() == Join(before, request);
      } else {
        loadingSprites := loadingSprites + {url};
        network.GetSprite(url, request);
        assert Model() == Start(before, request);
      }
      if old(Valid()) {
        FetchKeepsInv(old(Model()), url, data, callback);
      }
    }

    /**
     * SpriteFromNetwork(data): the Add into the cache throws when the url is cached already;
     * otherwise the sprite is cached, the initiator's callback runs, the loading mark goes,
     * and the queued callbacks run in order, each with the same sprite.
     */
    method SpriteFromNetwork(data: SpriteRequest) returns (outcome: Outcome<Fault>)
      modifies this
      ensures outcome == (if data.url in old(spriteCache) then Fail(DuplicateKey) else Pass)
      ensures outcome.Fail? ==>
        && spriteCache == old(spriteCache) && loadingSprites == old(loadingSprites)
        && pendingRequests == old(pendingRequests) && log == old(log) && issued == old(issued)
      ensures outcome.Pass? ==> Model() == Complete(old(Model()), data)
    {
      if data.url in spriteCache {
        return Fail(DuplicateKey);
      }
      spriteCache := spriteCache[data.url := data.sprite];
      log := log + [data];
      loadingSprites := loadingSprites - {data.url};
      if data.url in pendingRequests {
        var waiters := pendingRequests[data.url];
        for k := 0 to |waiters|
          invariant log == old(log) + [data] + Drain(waiters[..k], data.sprite)
          invariant spriteCache == old(spriteCache)[data.url := data.sprite]
          invariant loadingSprites == old(loadingSprites) - {data.url}
          invariant pendingRequests == old(pendingRequests) && issued == old(issued)
        {
          assert waiters[..k + 1][..k] == waiters[..k];
          var request := waiters[k].(sprite := data.sprite);
          log := log + [request];
        }
        assert waiters[..|waiters|] == waiters;
        pendingRequests := pendingRequests - {data.url};
      } else {
        assert pendingRequests - {data.url} == pendingRequests;
      }
      outcome := Pass;
    }

    /**
     * The download coroutine for download i ends: `result` (null on failure) goes into the
     * record, and the record goes to SpriteFromNetwork.
     */
    method OnSpriteDownloaded(i: nat, result: Option<Sprite>)
      requires Valid() && i < |network.outstanding|
      modifies this, network
      ensures Valid()
      ensures Model() == Deliver(old(Model()), i, result)
    {
      var data := network.Finish(i, result);
      var outcome := SpriteFromNetwork(data);
      DeliverKeepsInv(old(Model()), i, result);
    }
  }
}
