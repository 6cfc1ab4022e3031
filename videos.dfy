/**
 * convex/videos.ts: the video records of the Mux pipeline. A record is created when an upload
 * starts, with status uploading; the Mux webhooks then give it its asset, and then make it
 * ready or mark it as failed. A webhook for an unknown upload or asset finds no record,
 * returns null and writes nothing. Calling Mux itself is not part of the model.
 */
module Videos {
  import opened Wrappers
  import opened Store

  const Uploading := "uploading"
  const Ready := "ready"
  const Failed := "error"

  /** The record createVideo inserts: status uploading, created and updated now, nothing from Mux yet. */
  function NewVideo(uploadId: string, userId: string, title: Option<string>, circleId: Option<Id>, now: int): (r: Video)
    ensures r.uploadId == uploadId && r.userId == userId && r.title == title && r.circleId == circleId
    ensures r.status == Uploading && r.createdAt == now && r.updatedAt == now
    ensures r.assetId.None? && r.playbackId.None? && r.duration.None? && r.aspectRatio.None? && r.error.None?
  {
    Video(uploadId, None, None, userId, circleId, title, None, None, Uploading, None, now, now)
  }

  /** createVideo: one new record under the next id. */
  method CreateVideo(db: Database, uploadId: string, userId: string, title: Option<string>, circleId: Option<Id>,
                     now: int) returns (id: Id)
    requires db.Valid()
    modifies db`videos, db`nextId
    ensures db.Valid()
    ensures id == old(db.nextId) && id !in old(db.videos) && db.nextId == old(db.nextId) + 1
    ensures db.videos == old(db.videos)[id := NewVideo(uploadId, userId, title, circleId, now)]
  {
    id := db.InsertVideo(NewVideo(uploadId, userId, title, circleId, now));
  }

  function WithUpload(uploadId: string): Video -> bool
  {
    (v: Video) => v.uploadId == uploadId
  }

  function WithAsset(assetId: string): Video -> bool
  {
    (v: Video) => v.assetId == Some(assetId)
  }

  /** The `by_upload_id` lookup with `.first()`: the earliest record of the upload. */
  function VideoByUpload(videos: map<Id, Video>, n: nat, uploadId: string): (r: Option<Id>)
    ensures r.Some? ==> r.value in videos && r.value < n && videos[r.value].uploadId == uploadId
    ensures r.Some? ==> forall k :: k in videos && k < r.value ==> videos[k].uploadId != uploadId
    ensures r.None? <==> forall k :: k in videos && k < n ==> videos[k].uploadId != uploadId
  {
    FirstWhere(videos, n, WithUpload(uploadId))
  }

  /** The `by_asset_id` lookup with `.first()`: the earliest record of the asset. */
  function VideoByAsset(videos: map<Id, Video>, n: nat, assetId: string): (r: Option<Id>)
    ensures r.Some? ==> r.value in videos && r.value < n && videos[r.value].assetId == Some(assetId)
    ensures r.Some? ==> forall k :: k in videos && k < r.value ==> videos[k].assetId != Some(assetId)
    ensures r.None? <==> forall k :: k in videos && k < n ==> videos[k].assetId != Some(assetId)
  {
    FirstWhere(videos, n, WithAsset(assetId))
  }

  /** The fields updateVideoAsset patches: the asset, the status given by the webhook, updatedAt. */
  function WithAssetPatch(v: Video, assetId: string, status: string, now: int): (r: Video)
    ensures r.assetId == Some(assetId) && r.status == status && r.updatedAt == now
    ensures r.uploadId == v.uploadId && r.userId == v.userId && r.circleId == v.circleId && r.createdAt == v.createdAt
    ensures r.playbackId == v.playbackId && r.duration == v.duration && r.error == v.error
  {
    v.(assetId := Some(assetId), status := status, updatedAt := now)
  }

  /**
   * The fields updateVideoReady patches: playback id, duration and aspect ratio as given (an
   * absent one is removed), status ready, updatedAt.
   */
  function ReadyPatch(v: Video, playbackId: string, duration: Option<int>, aspectRatio: Option<string>, now: int): (r: Video)
    ensures r.playbackId == Some(playbackId) && r.duration == duration && r.aspectRatio == aspectRatio
    ensures r.status == Ready && r.updatedAt == now
    ensures r.uploadId == v.uploadId && r.assetId == v.assetId && r.userId == v.userId && r.createdAt == v.createdAt
    ensures r.error == v.error
  {
    v.(playbackId := Some(playbackId), duration := duration, aspectRatio := aspectRatio, status := Ready, updatedAt := now)
  }

  /** The fields updateVideoError patches: status error, the error text as given, updatedAt. */
  function ErrorPatch(v: Video, error: Option<string>, now: int): (r: Video)
    ensures r.status == Failed && r.error == error && r.updatedAt == now
    ensures r.uploadId == v.uploadId && r.assetId == v.assetId && r.userId == v.userId && r.createdAt == v.createdAt
    ensures r.playbackId == v.playbackId
  {
    v.(status := Failed, error := error, updatedAt := now)
  }

  /** updateVideoAsset: the record of the upload gets its asset and status; none, then null. */
  method UpdateVideoAsset(db: Database, uploadId: string, assetId: string, status: string, now: int) returns (r: Option<Id>)
    requires db.Valid()
    modifies db`videos
    ensures db.Valid()
    ensures r == VideoByUpload(old(db.videos), db.nextId, uploadId)
    ensures r.None? ==> db.videos == old(db.videos)
    ensures r.Some? ==> db.videos == old(db.videos)[r.value := WithAssetPatch(old(db.videos)[r.value], assetId, status, now)]
  {
    r := VideoByUpload(db.videos, db.nextId, uploadId);
    if r.Some? {
      db.SetVideo(r.value, WithAssetPatch(db.videos[r.value], assetId, status, now));
    }
  }

  /** updateVideoReady: the record of the asset becomes ready with its playback data; none, then null. */
  method UpdateVideoReady(db: Database, assetId: string, playbackId: string, duration: Option<int>,
                          aspectRatio: Option<string>, now: int) returns (r: Option<Id>)
    requires db.Valid()
    modifies db`videos
    ensures db.Valid()
    ensures r == VideoByAsset(old(db.videos), db.nextId, assetId)
    ensures r.None? ==> db.videos == old(db.videos)
    ensures r.Some? ==> db.videos == old(db.videos)[r.value := ReadyPatch(old(db.videos)[r.value], playbackId, duration, aspectRatio, now)]
  {
    r := VideoByAsset(db.videos, db.nextId, assetId);
    if r.Some? {
      db.SetVideo(r.value, ReadyPatch(db.videos[r.value], playbackId, duration, aspectRatio, now));
    }
  }

  /** updateVideoError: the record of the asset is marked failed with the error; none, then null. */
  method UpdateVideoError(db: Database, assetId: string, error: Option<string>, now: int) returns (r: Option<Id>)
    requires db.Valid()
    modifies db`videos
    ensures db.Valid()
    ensures r == VideoByAsset(old(db.videos), db.nextId, assetId)
    ensures r.None? ==> db.videos == old(db.videos)
    ensures r.Some? ==> db.videos == old(db.videos)[r.value := ErrorPatch(old(db.videos)[r.value], error, now)]
  {
    r := VideoByAsset(db.videos, db.nextId, assetId);
    if r.Some? {
      db.SetVideo(r.value, ErrorPatch(db.videos[r.value], error, now));
    }
  }

  /**
   * The pipeline on one upload: a record created for a fresh upload id is the one the asset
   * webhook finds, and, when no other record has that asset, the record the ready webhook
   * then finds is the same one, now ready with the asset and the playback id.
   */
  lemma UploadThenAssetThenReady(videos: map<Id, Video>, n: nat, uploadId: string, userId: string,
                                 title: Option<string>, circleId: Option<Id>, assetId: string, status: string,
                                 playbackId: string, duration: Option<int>, aspectRatio: Option<string>,
                                 t0: int, t1: int, t2: int)
    requires Below(videos, n)
    requires forall k :: k in videos ==> videos[k].uploadId != uploadId && videos[k].assetId != Some(assetId)
    ensures var v1 := videos[n := NewVideo(uploadId, userId, title, circleId, t0)];
            VideoByUpload(v1, n + 1, uploadId) == Some(n) &&
            var v2 := v1[n := WithAssetPatch(v1[n], assetId, status, t1)];
            VideoByAsset(v2, n + 1, assetId) == Some(n) &&
            var v3 := v2[n := ReadyPatch(v2[n], playbackId, duration, aspectRatio, t2)];
            v3[n].status == Ready && v3[n].assetId == Some(assetId) && v3[n].playbackId == Some(playbackId) &&
            v3[n].uploadId == uploadId && v3[n].createdAt == t0 && v3[n].updatedAt == t2
  {
    var v1: map<Id, Video> := videos[n := NewVideo(uploadId, userId, title, circleId, t0)];
    FirstWhereIs(v1, n + 1, WithUpload(uploadId), n);
    var v2: map<Id, Video> := v1[n := WithAssetPatch(v1[n], assetId, status, t1)];
    FirstWhereIs(v2, n + 1, WithAsset(assetId), n);
  }

  /** An error after the asset webhook: the same record is found and ends with status error. */
  lemma AssetThenError(videos: map<Id, Video>, n: nat, k: Id, assetId: string, status: string,
                       error: Option<string>, t1: int, t2: int)
    requires Below(videos, n) && k in videos
    requires forall j :: j in videos && j != k ==> videos[j].assetId != Some(assetId)
    ensures var v2 := videos[k := WithAssetPatch(videos[k], assetId, status, t1)];
            VideoByAsset(v2, n, assetId) == Some(k) &&
            ErrorPatch(v2[k], error, t2).status == Failed && ErrorPatch(v2[k], error, t2).assetId == Some(assetId)
  {
    var v2 := videos[k := WithAssetPatch(videos[k], assetId, status, t1)];
    FirstWhereIs(v2, n, WithAsset(assetId), k);
  }
}
