/**
 * The player page of the web front end. The framework's hive, which the page
 * template reads, is modelled by the two variables the handler sets: the project
 * being played and the video the player opens with.
 */
module Web {
  import opened Rows
  import opened Query
  import opened Ordering
  import opened Store

  /** The video the player opens with: the first of the list holding order 1. */
  function DefaultVideo(vs: seq<Video>): (r: Option<Video>)
    ensures r.None? <==> forall v :: v in vs ==> v.order != 1
    ensures r.Some? ==> r.value in vs && r.value.order == 1
  {
    var r := FetchFirst(vs, (v: Video) => v.order == 1);
    assert r.None? ==> forall v :: v in vs ==> v.order != 1 by {
      if r.None? {
        forall v | v in vs ensures v.order != 1 {
          var i :| 0 <= i < |vs| && vs[i] == v;
        }
      }
    }
    r
  }

  class Controller {
    /** The hive's `project_id`. */
    var projectId: Option<int>
    /** The hive's `video`; the handler leaves it as it was when no video has order 1. */
    var video: Option<Video>

    constructor ()
      ensures projectId == None && video == None
    {
      projectId := None;
      video := None;
    }

    /**
     * Shows project `item`: records the project, fetches its videos by ascending
     * order and selects the first one with order 1.
     */
    method VideoPlayer(db: Database, item: int)
      modifies this`projectId, this`video
      ensures projectId == Some(item)
      ensures video == match DefaultVideo(db.GetVideos(item)) case None => old(video) case Some(v) => Some(v)
    {
      projectId := Some(item);
      var videoArray := db.GetVideos(item);
      var found := FirstAtOrderOne(videoArray);
      if found.Some? {
        video := found;
      }
    }
  }

  /**
   * The loop of the player page: scans the list in order and stops at the first
   * video with order 1.
   */
  method FirstAtOrderOne(videoArray: seq<Video>) returns (found: Option<Video>)
    ensures found == DefaultVideo(videoArray)
  {
    found := None;
    var k := 0;
    while k < |videoArray|
      invariant 0 <= k <= |videoArray|
      invariant found == None
      invariant forall i :: 0 <= i < k ==> videoArray[i].order != 1
    {
      if videoArray[k].order == 1 {
        found := Some(videoArray[k]);
        break;
      }
      k := k + 1;
    }
    if k < |videoArray| {
      FirstOrderOne(videoArray, k);
    } else {
      assert forall v :: v in videoArray ==> v.order != 1;
    }
  }

  /** The first entry with order 1 is the default video. */
  lemma FirstOrderOne(vs: seq<Video>, k: int)
    requires 0 <= k < |vs| && vs[k].order == 1
    requires forall i :: 0 <= i < k ==> vs[i].order != 1
    ensures DefaultVideo(vs) == Some(vs[k])
  {
    var i :| 0 <= i < |vs| && vs[i] == DefaultVideo(vs).value && vs[i].order == 1
             && forall j :: 0 <= j < i ==> vs[j].order != 1;
  }

  /**
   * The player opens with a video of the requested project at order 1 exactly when
   * the project has one; while the orders of each project are distinct, it is the
   * only such video.
   */
  lemma PlayerStartsAtFirstVideo(db: Database, item: int)
    ensures DefaultVideo(db.GetVideos(item)).None? <==> forall v :: v in db.videos && v.projectId == item ==> v.order != 1
    ensures DefaultVideo(db.GetVideos(item)).Some? ==>
              var d := DefaultVideo(db.GetVideos(item)).value;
              d in db.videos && d.projectId == item && d.order == 1
    ensures DefaultVideo(db.GetVideos(item)).Some? && UniqueOrders(db.videos) ==>
              forall w :: w in db.videos && w.projectId == item && w.order == 1 ==> w == DefaultVideo(db.GetVideos(item)).value
  {
    var vs := db.GetVideos(item);
    var d := DefaultVideo(vs);
    if d.Some? && UniqueOrders(db.videos) {
      forall w | w in db.videos && w.projectId == item && w.order == 1 ensures w == d.value {
        var a :| 0 <= a < |db.videos| && db.videos[a] == w;
        var b :| 0 <= b < |db.videos| && db.videos[b] == d.value;
        if a != b {
          OrdersDifferAt(db.videos, a, b);
        }
      }
    }
  }
}
