/**
 * The body of `main` after the configuration gate: walk the timeline, skip
 * posts without `extended_entities.media`, and turn every media item of the
 * other posts into a download job in `<target user id>/`. A thrown error stops
 * the walk; the downloads started before it are recorded with it.
 */
module Planner {
  import opened Wrappers
  import Text
  import Config
  import opened Media

  /**
   * A post of the timeline: `createdPrefix` is its `created_at` formatted as
   * `YYYY-MM-DD_HH-mm-ss`, `media` its `extended_entities?.media`.
   */
  datatype Post = Post(createdPrefix: string, media: Option<seq<MediaItem>>)

  /**
   * How a run ends. `Completed` holds every job, in the order they were
   * started; `Aborted` holds the error message and the jobs whose download had
   * already been started when the error was thrown.
   */
  datatype Outcome = Completed(jobs: seq<Job>) | Aborted(message: string, started: seq<Job>)

  /** Every job the outcome started, completed or not. */
  function StartedJobs(o: Outcome): seq<Job>
  {
    match o
    case Completed(jobs) => jobs
    case Aborted(_, started) => started
  }

  /**
   * `media.map(...)` over the items of one post. The callback starts each
   * download as it goes, so when item k throws, items 0 .. k-1 have started.
   */
  function PlanItems(dir: string, prefix: string, ms: seq<MediaItem>): (o: Outcome)
    ensures o.Completed? ==> |o.jobs| == |ms|
    ensures o.Aborted? ==> |o.started| < |ms| && o.message == VIDEO_URL_ERROR
  {
    if ms == [] then Completed([])
    else
      match PlanItems(dir, prefix, ms[..|ms| - 1])
      case Aborted(e, started) => Aborted(e, started)
      case Completed(jobs) =>
        match PlanMedia(dir, prefix, |ms| - 1, ms[|ms| - 1])
        case Failure(e) => Aborted(e, jobs)
        case Success(job) => Completed(jobs + [job])
  }

  /** The `for await` loop over the timeline, appending each post's jobs to `tasks`. */
  function PlanTimeline(dir: string, posts: seq<Post>): (o: Outcome)
    ensures o.Aborted? ==> o.message == VIDEO_URL_ERROR
  {
    if posts == [] then Completed([])
    else
      var post := posts[|posts| - 1];
      match PlanTimeline(dir, posts[..|posts| - 1])
      case Aborted(e, started) => Aborted(e, started)
      case Completed(tasks) =>
        match post.media
        case None => Completed(tasks)
        case Some(ms) =>
          match PlanItems(dir, post.createdPrefix, ms)
          case Completed(jobs) => Completed(tasks + jobs)
          case Aborted(e, started) => Aborted(e, tasks + started)
  }

  /** The whole of `main` apart from I/O: the gate, then the timeline into the target user's directory. */
  function Run(env: Config.Environment, timeline: seq<Post>): (o: Outcome)
    ensures Config.CheckConfiguration(env).Failure? ==> o.Aborted? && o.started == []
    ensures o.Aborted? && o.message != VIDEO_URL_ERROR ==>
      exists s: Config.Setting :: Config.Lookup(env, s).None? && o.message == Config.RequiredMessage(s)
  {
    match Config.CheckConfiguration(env)
    case Failure(e) => Aborted(e, [])
    case Success(credentials) => PlanTimeline(credentials.targetUserId, timeline)
  }

  /**
   * The `media.map` callback applied to the items of one post, in order; the
   * variant loop runs for each video, and an item without a selectable
   * variant throws.
   */
  method MapMedia(dir: string, prefix: string, media: seq<MediaItem>) returns (out: Outcome)
    ensures out == PlanItems(dir, prefix, media)
  {
    var mapped: seq<Job> := [];
    for i := 0 to |media|
      invariant PlanItems(dir, prefix, media[..i]) == Completed(mapped)
    {
      assert media[..i + 1][..i] == media[..i];
      var m := media[i];
      var job: Job;
      if m.videoInfo.None? {
        var url := m.mediaUrlHttps;
        job := Job(url, Destination(dir, FileName(prefix, i, Text.Extension(url))));
      } else {
        var url := SelectVideoUrl(m.videoInfo.value);
        if url.None? {
          ItemsAbortPersists(dir, prefix, media, i + 1);
          return Aborted(VIDEO_URL_ERROR, mapped);
        }
        job := Job(url.value, Destination(dir, FileName(prefix, i, VIDEO_EXTENSION)));
      }
      mapped := mapped + [job];
    }
    assert media[..|media|] == media;
    out := Completed(mapped);
  }

  /**
   * `main` as the program runs it, with the settings and the fetched timeline
   * as inputs and the jobs it starts as output.
   */
  method Crawl(env: Config.Environment, timeline: seq<Post>) returns (out: Outcome)
    ensures out == Run(env, timeline)
  {
    var checked := Config.CheckConfiguration(env);
    if checked.Failure? {
      return Aborted(checked.error, []);
    }
    var dir := checked.value.targetUserId;
    var tasks: seq<Job> := [];
    for p := 0 to |timeline|
      invariant PlanTimeline(dir, timeline[..p]) == Completed(tasks)
    {
      assert timeline[..p + 1][..p] == timeline[..p];
      var tweet := timeline[p];
      if tweet.media.None? {
        continue;
      }
      var mapped := MapMedia(dir, tweet.createdPrefix, tweet.media.value);
      if mapped.Aborted? {
        // the error escapes `main`; downloads started so far keep their place
        TimelineAbortPersists(dir, timeline, p + 1);
        return Aborted(mapped.message, tasks + mapped.started);
      }
      tasks := tasks + mapped.jobs;
    }
    assert timeline[..|timeline|] == timeline;
    out := Completed(tasks);
  }

  /** Once an item throws, later items change nothing: the error is final. */
  lemma {:induction false} ItemsAbortPersists(dir: string, prefix: string, ms: seq<MediaItem>, k: nat)
    requires k <= |ms|
    requires PlanItems(dir, prefix, ms[..k]).Aborted?
    ensures PlanItems(dir, prefix, ms) == PlanItems(dir, prefix, ms[..k])
    decreases |ms|
  {
    if k < |ms| {
      var init := ms[..|ms| - 1];
      assert init[..k] == ms[..k];
      ItemsAbortPersists(dir, prefix, init, k);
    } else {
      assert ms[..k] == ms;
    }
  }

  /** Once a post throws, later posts change nothing: the error is final. */
  lemma {:induction false} TimelineAbortPersists(dir: string, posts: seq<Post>, k: nat)
    requires k <= |posts|
    requires PlanTimeline(dir, posts[..k]).Aborted?
    ensures PlanTimeline(dir, posts) == PlanTimeline(dir, posts[..k])
    decreases |posts|
  {
    if k < |posts| {
      var init := posts[..|posts| - 1];
      assert init[..k] == posts[..k];
      TimelineAbortPersists(dir, init, k);
    } else {
      assert posts[..k] == posts;
    }
  }

  /** A post completes exactly when every item's plan succeeds. */
  lemma {:induction false} ItemsCompleteIff(dir: string, prefix: string, ms: seq<MediaItem>)
    ensures PlanItems(dir, prefix, ms).Completed? <==>
      forall i :: 0 <= i < |ms| ==> PlanMedia(dir, prefix, i, ms[i]).Success?
  {
    if ms != [] {
      var n := |ms| - 1;
      var init := ms[..n];
      ItemsCompleteIff(dir, prefix, init);
      assert forall i :: 0 <= i < n ==> init[i] == ms[i];
    }
  }

  /**
   * A post whose items all succeed yields exactly one job per item, in list
   * order, job i being the plan for item i.
   */
  lemma {:induction false} ItemsCompleted(dir: string, prefix: string, ms: seq<MediaItem>)
    ensures PlanItems(dir, prefix, ms).Completed? ==>
      && |PlanItems(dir, prefix, ms).jobs| == |ms|
      && forall i :: 0 <= i < |ms| ==> PlanMedia(dir, prefix, i, ms[i]) == Success(PlanItems(dir, prefix, ms).jobs[i])
  {
    if ms != [] {
      var n := |ms| - 1;
      var init := ms[..n];
      ItemsCompleted(dir, prefix, init);
      var before := PlanItems(dir, prefix, init);
      var last := PlanMedia(dir, prefix, n, ms[n]);
      if before.Completed? && last.Success? {
        var jobs := before.jobs + [last.value];
        assert PlanItems(dir, prefix, ms) == Completed(jobs);
        forall i | 0 <= i < |ms| ensures PlanMedia(dir, prefix, i, ms[i]) == Success(jobs[i]) {
          if i < n {
            assert init[i] == ms[i] && jobs[i] == before.jobs[i];
          }
        }
      }
    }
  }

  /**
   * When a post fails, it is at the first item whose plan fails, a video with
   * no playable variant; the downloads of the items before it were started
   * and no job is produced for it or any later item.
   */
  lemma {:induction false} ItemsAborted(dir: string, prefix: string, ms: seq<MediaItem>)
    requires PlanItems(dir, prefix, ms).Aborted?
    ensures var o := PlanItems(dir, prefix, ms);
      var k := |o.started|;
      && k < |ms|
      && o.message == VIDEO_URL_ERROR
      && ms[k].videoInfo.Some?
      && (forall j :: 0 <= j < |ms[k].videoInfo.value| ==> !Playable(ms[k].videoInfo.value[j]))
      && (forall i :: 0 <= i < k ==> PlanMedia(dir, prefix, i, ms[i]) == Success(o.started[i]))
  {
    var init := ms[..|ms| - 1];
    assert forall i :: 0 <= i < |init| ==> init[i] == ms[i];
    if PlanItems(dir, prefix, init).Aborted? {
      ItemsAborted(dir, prefix, init);
    } else {
      ItemsCompleted(dir, prefix, init);
    }
  }

  /** The posts that carry `extended_entities.media`. */
  function WithMedia(posts: seq<Post>): (r: seq<Post>)
    ensures |r| <= |posts|
    ensures forall k :: 0 <= k < |r| ==> r[k].media.Some?
  {
    if posts == [] then []
    else if posts[|posts| - 1].media.None? then WithMedia(posts[..|posts| - 1])
    else WithMedia(posts[..|posts| - 1]) + [posts[|posts| - 1]]
  }

  /**
   * The walk completes exactly when every post that has media completes: a
   * single video without a playable variant anywhere stops the whole run.
   */
  lemma {:induction false} TimelineCompletesIff(dir: string, posts: seq<Post>)
    ensures PlanTimeline(dir, posts).Completed? <==>
      forall p :: 0 <= p < |posts| && posts[p].media.Some? ==>
        PlanItems(dir, posts[p].createdPrefix, posts[p].media.value).Completed?
  {
    if posts != [] {
      var init := posts[..|posts| - 1];
      TimelineCompletesIff(dir, init);
      assert forall p :: 0 <= p < |init| ==> init[p] == posts[p];
    }
  }

  /** Posts without media contribute no jobs and do not stop the walk: dropping them changes nothing. */
  lemma {:induction false} PostsWithoutMediaIgnored(dir: string, posts: seq<Post>)
    ensures PlanTimeline(dir, posts) == PlanTimeline(dir, WithMedia(posts))
  {
    if posts != [] {
      var init := posts[..|posts| - 1];
      PostsWithoutMediaIgnored(dir, init);
      if posts[|posts| - 1].media.Some? {
        var w := WithMedia(init) + [posts[|posts| - 1]];
        assert w[..|w| - 1] == WithMedia(init);
      }
    }
  }

  /** Total number of media items over the posts that have media. */
  function MediaCount(posts: seq<Post>): nat
  {
    if posts == [] then 0
    else
      var post := posts[|posts| - 1];
      MediaCount(posts[..|posts| - 1]) + (if post.media.None? then 0 else |post.media.value|)
  }

  /** A walk that completes starts exactly one download per media item of the timeline. */
  lemma {:induction false} OneJobPerMediaItem(dir: string, posts: seq<Post>)
    requires PlanTimeline(dir, posts).Completed?
    ensures |PlanTimeline(dir, posts).jobs| == MediaCount(posts)
  {
    if posts != [] {
      var init := posts[..|posts| - 1];
      OneJobPerMediaItem(dir, init);
      var post := posts[|posts| - 1];
      if post.media.Some? {
        ItemsCompleted(dir, post.createdPrefix, post.media.value);
      }
    }
  }

  /** The job writes into `dir`. */
  predicate InDirectory(dir: string, job: Job)
  {
    dir + "/" <= job.path
  }

  /** Every job of the list writes into `dir`. */
  predicate AllInDirectory(dir: string, jobs: seq<Job>)
  {
    forall k :: 0 <= k < |jobs| ==> InDirectory(dir, jobs[k])
  }

  /** Every file a media item is saved to lies under `<dir>/`. */
  lemma MediaJobInDirectory(dir: string, prefix: string, i: nat, m: MediaItem)
    requires PlanMedia(dir, prefix, i, m).Success?
    ensures InDirectory(dir, PlanMedia(dir, prefix, i, m).value)
  {
  }

  /** Two lists of jobs under `<dir>/` stay under it when concatenated. */
  lemma AllInDirectoryAppend(dir: string, xs: seq<Job>, ys: seq<Job>)
    requires AllInDirectory(dir, xs) && AllInDirectory(dir, ys)
    ensures AllInDirectory(dir, xs + ys)
  {
  }

  lemma {:induction false} ItemsInDirectory(dir: string, prefix: string, ms: seq<MediaItem>)
    ensures AllInDirectory(dir, StartedJobs(PlanItems(dir, prefix, ms)))
  {
    if ms != [] {
      var init := ms[..|ms| - 1];
      ItemsInDirectory(dir, prefix, init);
      var before := PlanItems(dir, prefix, init);
      var r := PlanMedia(dir, prefix, |ms| - 1, ms[|ms| - 1]);
      if before.Completed? && r.Success? {
        MediaJobInDirectory(dir, prefix, |ms| - 1, ms[|ms| - 1]);
        AllInDirectoryAppend(dir, before.jobs, [r.value]);
      }
    }
  }

  /** Every download the walk starts, completed or aborted, writes under `<dir>/`. */
  lemma {:induction false} JobsInDirectory(dir: string, posts: seq<Post>)
    ensures AllInDirectory(dir, StartedJobs(PlanTimeline(dir, posts)))
  {
    if posts != [] {
      var init := posts[..|posts| - 1];
      JobsInDirectory(dir, init);
      var post := posts[|posts| - 1];
      var before := PlanTimeline(dir, init);
      if before.Completed? && post.media.Some? {
        ItemsInDirectory(dir, post.createdPrefix, post.media.value);
        AllInDirectoryAppend(dir, before.jobs, StartedJobs(PlanItems(dir, post.createdPrefix, post.media.value)));
      }
    }
  }

  /** The run writes into the directory named after the target user id. */
  lemma RunWritesIntoTargetDirectory(env: Config.Environment, timeline: seq<Post>)
    requires env.targetUserId.Some?
    ensures AllInDirectory(env.targetUserId.value, StartedJobs(Run(env, timeline)))
  {
    JobsInDirectory(env.targetUserId.value, timeline);
  }

  /** No two jobs of the list write the same file. */
  predicate PathsDistinct(jobs: seq<Job>)
  {
    forall a, b :: 0 <= a < b < |jobs| ==> jobs[a].path != jobs[b].path
  }

  /** The files started for one post are pairwise distinct. */
  lemma DistinctPathsWithinPost(dir: string, prefix: string, ms: seq<MediaItem>)
    ensures PathsDistinct(StartedJobs(PlanItems(dir, prefix, ms)))
  {
    var o := PlanItems(dir, prefix, ms);
    var started := StartedJobs(o);
    if o.Completed? {
      ItemsCompleted(dir, prefix, ms);
    } else {
      ItemsAborted(dir, prefix, ms);
    }
    forall a, b | 0 <= a < b < |started| ensures started[a].path != started[b].path {
      DistinctIndicesDistinctPaths(dir, prefix, a, b, ms[a], ms[b]);
    }
  }

  /** The job's file is `<dir>/<prefix>_<i>.<ext>` for some index and some dot-free extension. */
  ghost predicate NamedFor(dir: string, job: Job, prefix: string)
  {
    exists i: nat, ext: string :: '.' !in ext && job.path == Destination(dir, FileName(prefix, i, ext))
  }

  /** The job is named for the timestamp of some post of the list that has media. */
  ghost predicate NamedForSomePost(dir: string, job: Job, posts: seq<Post>)
  {
    exists p :: 0 <= p < |posts| && posts[p].media.Some? && NamedFor(dir, job, posts[p].createdPrefix)
  }

  /** Every job of the list is named for `prefix`. */
  ghost predicate AllNamedFor(dir: string, jobs: seq<Job>, prefix: string)
  {
    forall k :: 0 <= k < |jobs| ==> NamedFor(dir, jobs[k], prefix)
  }

  /** Every job of the list is named for the timestamp of some post with media. */
  ghost predicate AllNamedForSomePost(dir: string, jobs: seq<Job>, posts: seq<Post>)
  {
    forall k :: 0 <= k < |jobs| ==> NamedForSomePost(dir, jobs[k], posts)
  }

  /** Jobs named for different timestamps write different files. */
  lemma NamedForDifferentPrefixes(dir: string, x: Job, px: string, y: Job, py: string)
    requires NamedFor(dir, x, px) && NamedFor(dir, y, py) && px != py
    ensures x.path != y.path
  {
    var i: nat, ei: string :| '.' !in ei && x.path == Destination(dir, FileName(px, i, ei));
    var j: nat, ej: string :| '.' !in ej && y.path == Destination(dir, FileName(py, j, ej));
    FileNameInjective(px, i, ei, py, j, ej);
  }

  /** Every download started for a post is named for that post's timestamp. */
  lemma ItemsNamedFor(dir: string, prefix: string, ms: seq<MediaItem>)
    ensures AllNamedFor(dir, StartedJobs(PlanItems(dir, prefix, ms)), prefix)
  {
    var o := PlanItems(dir, prefix, ms);
    var started := StartedJobs(o);
    if o.Completed? {
      ItemsCompleted(dir, prefix, ms);
    } else {
      ItemsAborted(dir, prefix, ms);
    }
    forall k | 0 <= k < |started| ensures NamedFor(dir, started[k], prefix) {
      var ext := SavedExtension(ms[k]);
      assert started[k].path == Destination(dir, FileName(prefix, k, ext));
    }
  }

  /** Every download the walk starts is named for the timestamp of a post with media. */
  lemma {:induction false} TimelineNamedFor(dir: string, posts: seq<Post>)
    ensures AllNamedForSomePost(dir, StartedJobs(PlanTimeline(dir, posts)), posts)
  {
    if posts != [] {
      var n := |posts| - 1;
      var init := posts[..n];
      TimelineNamedFor(dir, init);
      var before := PlanTimeline(dir, init);
      var post := posts[n];
      if before.Completed? && post.media.Some? {
        var items := StartedJobs(PlanItems(dir, post.createdPrefix, post.media.value));
        ItemsNamedFor(dir, post.createdPrefix, post.media.value);
        var started := before.jobs + items;
        forall k | 0 <= k < |started| ensures NamedForSomePost(dir, started[k], posts) {
          if k < |before.jobs| {
            assert NamedForSomePost(dir, before.jobs[k], init);
            var p :| 0 <= p < |init| && init[p].media.Some? && NamedFor(dir, before.jobs[k], init[p].createdPrefix);
            assert init[p] == posts[p];
          } else {
            assert started[k] == items[k - |before.jobs|];
            assert NamedFor(dir, started[k], posts[n].createdPrefix);
          }
        }
      }
    }
  }

  /** The posts that have media print pairwise different timestamps. */
  predicate PrefixesDistinct(posts: seq<Post>)
  {
    forall p, q :: 0 <= p < q < |posts| && posts[p].media.Some? && posts[q].media.Some? ==>
      posts[p].createdPrefix != posts[q].createdPrefix
  }

  /** Two lists without repeated paths, and with no path in common, concatenate without repeats. */
  lemma PathsDistinctAppend(xs: seq<Job>, ys: seq<Job>)
    requires PathsDistinct(xs) && PathsDistinct(ys)
    requires forall a, b :: 0 <= a < |xs| && 0 <= b < |ys| ==> xs[a].path != ys[b].path
    ensures PathsDistinct(xs + ys)
  {
  }

  /**
   * As long as no two posts with media print the same timestamp, no two
   * downloads of the run, completed or aborted, write the same file.
   */
  lemma {:induction false} PathsUniqueInRun(dir: string, posts: seq<Post>)
    requires PrefixesDistinct(posts)
    ensures PathsDistinct(StartedJobs(PlanTimeline(dir, posts)))
  {
    if posts != [] {
      var n := |posts| - 1;
      var init := posts[..n];
      assert forall p :: 0 <= p < n ==> init[p] == posts[p];
      PathsUniqueInRun(dir, init);
      var before := PlanTimeline(dir, init);
      var post := posts[n];
      if before.Completed? && post.media.Some? {
        var items := StartedJobs(PlanItems(dir, post.createdPrefix, post.media.value));
        DistinctPathsWithinPost(dir, post.createdPrefix, post.media.value);
        ItemsNamedFor(dir, post.createdPrefix, post.media.value);
        TimelineNamedFor(dir, init);
        forall a, b | 0 <= a < |before.jobs| && 0 <= b < |items|
          ensures before.jobs[a].path != items[b].path
        {
          assert NamedForSomePost(dir, before.jobs[a], init);
          assert NamedFor(dir, items[b], post.createdPrefix);
          var p :| 0 <= p < |init| && init[p].media.Some? && NamedFor(dir, before.jobs[a], init[p].createdPrefix);
          NamedForDifferentPrefixes(dir, before.jobs[a], posts[p].createdPrefix, items[b], post.createdPrefix);
        }
        PathsDistinctAppend(before.jobs, items);
      }
    }
  }

  /**
   * Into `dir`: a post without media and a post with an image and a video
   * of bitrates [500, 900]: two files under `dir/`, named `<prefix>_0.<ext>`
   * and `<prefix>_1.mp4`, the video from the 900 variant.
   */
  lemma TwoPostScenario(dir: string, prefixA: string, prefixB: string, pieces: seq<string>,
                        thumb: string, url500: string, url900: string)
    requires |pieces| >= 4 && Text.SeparatorFree(pieces, '.')
    ensures var image := Text.Join(pieces, '.');
      var video := MediaItem(thumb, Some([Variant(Some(500), url500), Variant(Some(900), url900)]));
      var posts := [Post(prefixA, None), Post(prefixB, Some([MediaItem(image, None), video]))];
      PlanTimeline(dir, posts) == Completed([
        Job(image, Destination(dir, FileName(prefixB, 0, pieces[3]))),
        Job(url900, Destination(dir, FileName(prefixB, 1, "mp4")))])
  {
    var image := Text.Join(pieces, '.');
    ImageJob(dir, prefixB, 0, pieces);
    var j0 := Job(image, Destination(dir, FileName(prefixB, 0, pieces[3])));
    var variants := [Variant(Some(500), url500), Variant(Some(900), url900)];
    assert LastPlayable(variants) == Some(1);
    var video := MediaItem(thumb, Some(variants));
    var j1 := Job(url900, Destination(dir, FileName(prefixB, 1, "mp4")));
    assert PlanMedia(dir, prefixB, 1, video) == Success(j1);

    var items := [MediaItem(image, None), video];
    assert items[..1] == [MediaItem(image, None)];
    assert items[..1][..0] == [];
    assert PlanItems(dir, prefixB, items[..1]) == Completed([j0]);
    assert PlanItems(dir, prefixB, items) == Completed([j0, j1]);

    var posts := [Post(prefixA, None), Post(prefixB, Some(items))];
    assert posts[..1] == [Post(prefixA, None)];
    assert posts[..1][..0] == [];
    assert PlanTimeline(dir, posts[..1]) == Completed([]);
  }

  /**
   * A video with no variants after an image: the run stops with the error,
   * the image's download has already started, and nothing is started for the video.
   */
  lemma EmptyVariantsAbort(dir: string, prefix: string, image: string)
    ensures var ms := [MediaItem(image, None), MediaItem(image, Some([]))];
      PlanTimeline(dir, [Post(prefix, Some(ms))]) ==
        Aborted(VIDEO_URL_ERROR, [PlanMedia(dir, prefix, 0, MediaItem(image, None)).value])
  {
    var ms := [MediaItem(image, None), MediaItem(image, Some([]))];
    assert ms[..1] == [MediaItem(image, None)];
    assert ms[..1][..0] == [];
    assert [Post(prefix, Some(ms))][..0] == [];
    assert PlanMedia(dir, prefix, 1, ms[1]) == Failure(VIDEO_URL_ERROR);
    var first := PlanMedia(dir, prefix, 0, MediaItem(image, None));
    assert PlanItems(dir, prefix, ms[..1]) == Completed([first.value]);
    assert PlanItems(dir, prefix, ms) == Aborted(VIDEO_URL_ERROR, [first.value]);
  }

  /**
   * Two different posts whose timestamps print the same to the second, each
   * with one image, collide: the images have different URLs with the same
   * fourth piece, and both are written to the same file.
   */
  lemma SameSecondPostsCollide(dir: string, prefix: string, pieces1: seq<string>, pieces2: seq<string>)
    requires |pieces1| >= 4 && Text.SeparatorFree(pieces1, '.')
    requires |pieces2| >= 4 && Text.SeparatorFree(pieces2, '.')
    requires pieces1[3] == pieces2[3] && Text.Join(pieces1, '.') != Text.Join(pieces2, '.')
    ensures var first := Post(prefix, Some([MediaItem(Text.Join(pieces1, '.'), None)]));
      var second := Post(prefix, Some([MediaItem(Text.Join(pieces2, '.'), None)]));
      var o := PlanTimeline(dir, [first, second]);
      && o.Completed? && |o.jobs| == 2
      && o.jobs[0].path == o.jobs[1].path
      && o.jobs[0].url != o.jobs[1].url
  {
    var url1, url2 := Text.Join(pieces1, '.'), Text.Join(pieces2, '.');
    ImageJob(dir, prefix, 0, pieces1);
    ImageJob(dir, prefix, 0, pieces2);
    var job1 := PlanMedia(dir, prefix, 0, MediaItem(url1, None)).value;
    var job2 := PlanMedia(dir, prefix, 0, MediaItem(url2, None)).value;
    assert job1.path == job2.path && job1.url != job2.url;
    var first := Post(prefix, Some([MediaItem(url1, None)]));
    var second := Post(prefix, Some([MediaItem(url2, None)]));
    assert [MediaItem(url1, None)][..0] == [];
    assert [MediaItem(url2, None)][..0] == [];
    assert PlanItems(dir, prefix, [MediaItem(url1, None)]) == Completed([job1]);
    assert PlanItems(dir, prefix, [MediaItem(url2, None)]) == Completed([job2]);
    assert [first, second][..1] == [first];
    assert [first][..0] == [];
    assert PlanTimeline(dir, [first]) == Completed([job1]);
    assert PlanTimeline(dir, [first, second]) == Completed([job1] + [job2]);
  }
}
