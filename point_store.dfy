/** The control-point bookkeeping of the point-guided warping demo: clicks
    alternate between the list of source (control) points and the list of
    target points, and uploading an image or pressing "Clear Points" empties
    both lists. The program keeps the lists and the current image in
    module-level variables; here they are the fields of a `Session`. */
module PointStore {
  import opened Images

  /** What the user can do to the point lists. */
  datatype Event = Click(at: Point) | Upload | Clear

  /** The two point lists, `points_src` and `points_dst`. */
  datatype Lists = Lists(src: seq<Point>, dst: seq<Point>)

  /** Each source point has its target, except possibly the last source
      point, whose target has not been clicked yet. */
  predicate Balanced(s: Lists)
  {
    |s.src| == |s.dst| || |s.src| == |s.dst| + 1
  }

  /** The effect of one event on the lists: a click is appended to the
      source list when both lists are equally long and to the target list
      otherwise; an upload or a clear empties both. A click only extends
      the lists, by exactly one point. */
  function Step(s: Lists, e: Event): (t: Lists)
    ensures e.Click? ==> s.src <= t.src && s.dst <= t.dst
    ensures e.Click? ==> |t.src| + |t.dst| == |s.src| + |s.dst| + 1
    ensures !e.Click? ==> t.src == [] && t.dst == []
  {
    match e
    case Click(p) =>
      if |s.src| == |s.dst| then Lists(s.src + [p], s.dst) else Lists(s.src, s.dst + [p])
    case Upload => Lists([], [])
    case Clear => Lists([], [])
  }

  /** The lists after a history of events, starting from the empty lists
      the program starts with. Together the lists hold one point per click
      made since the last upload or clear. */
  function Replay(events: seq<Event>): (s: Lists)
    ensures |s.src| + |s.dst| == |ClicksSinceReset(events)|
  {
    if events == [] then Lists([], [])
    else Step(Replay(events[..|events| - 1]), events[|events| - 1])
  }

  /** The clicks made since the last upload or clear, in order. */
  function ClicksSinceReset(events: seq<Event>): seq<Point>
  {
    if events == [] then []
    else
      match events[|events| - 1]
      case Click(p) => ClicksSinceReset(events[..|events| - 1]) + [p]
      case Upload => []
      case Clear => []
  }

  /** The 1st, 3rd, 5th, ... of a run of clicks. */
  function OddClicks(c: seq<Point>): seq<Point>
  {
    seq((|c| + 1) / 2, i requires 0 <= i < (|c| + 1) / 2 => c[2 * i])
  }

  /** The 2nd, 4th, 6th, ... of a run of clicks. */
  function EvenClicks(c: seq<Point>): seq<Point>
  {
    seq(|c| / 2, i requires 0 <= i < |c| / 2 => c[2 * i + 1])
  }

  /** After any history, the source list holds the odd-numbered clicks since
      the last reset and the target list the even-numbered ones: the i-th
      source point is paired with the click made right after it. */
  lemma {:induction false} ReplayPairsClicks(events: seq<Event>)
    ensures Replay(events) == Lists(OddClicks(ClicksSinceReset(events)), EvenClicks(ClicksSinceReset(events)))
  {
    if events != [] {
      var init := events[..|events| - 1];
      ReplayPairsClicks(init);
      var c := ClicksSinceReset(init);
      match events[|events| - 1]
      case Click(p) =>
        var c' := c + [p];
        if |c| % 2 == 0 {
          assert OddClicks(c') == OddClicks(c) + [p];
          assert EvenClicks(c') == EvenClicks(c);
        } else {
          assert OddClicks(c') == OddClicks(c);
          assert EvenClicks(c') == EvenClicks(c) + [p];
        }
      case Upload =>
      case Clear =>
    }
  }

  /** Whatever the history of clicks, uploads and clears, the source list is
      as long as the target list or one longer. */
  lemma ReplayBalanced(events: seq<Event>)
    ensures Balanced(Replay(events))
  {
    ReplayPairsClicks(events);
  }

  /** Any event (a click, an upload or a clear) keeps balanced lists balanced. */
  lemma StepBalanced(s: Lists, e: Event)
    requires Balanced(s)
    ensures Balanced(Step(s, e))
  {
  }

  /** The demo's module-level state: the two point lists and the image the
      points are clicked on. `history` records the events so far, and the
      lists are always what those events produce. */
  class Session {
    var pointsSrc: seq<Point>
    var pointsDst: seq<Point>
    var image: array2?<Pixel>
    ghost var history: seq<Event>

    ghost predicate Valid()
      reads this
    {
      Lists(pointsSrc, pointsDst) == Replay(history) &&
      Balanced(Lists(pointsSrc, pointsDst))
    }

    /** The state at start-up: both lists empty and no image. */
    constructor ()
      ensures Valid()
      ensures pointsSrc == [] && pointsDst == [] && image == null && history == []
    {
      pointsSrc, pointsDst, image := [], [], null;
      history := [];
    }

    /** `upload_image`: empties both lists, keeps the new image and hands it
        back for display. */
    method UploadImage(img: array2<Pixel>) returns (shown: array2<Pixel>)
      requires Valid()
      modifies this
      ensures Valid()
      ensures pointsSrc == [] && pointsDst == []
      ensures image == img && shown == img
      ensures history == old(history) + [Upload]
    {
      pointsSrc := [];
      pointsDst := [];
      image := img;
      history := history + [Upload];
      shown := img;
    }

    /** The list bookkeeping of `record_points`: the clicked point goes to the
        source list when both lists are equally long, and to the target list
        otherwise; the other list and the image stay as they were. */
    method RecordPoint(p: Point)
      requires Valid()
      modifies this
      ensures Valid()
      ensures old(|pointsSrc| == |pointsDst|) ==>
        pointsSrc == old(pointsSrc) + [p] && pointsDst == old(pointsDst)
      ensures old(|pointsSrc| != |pointsDst|) ==>
        pointsSrc == old(pointsSrc) && pointsDst == old(pointsDst) + [p]
      ensures image == old(image)
      ensures history == old(history) + [Click(p)]
    {
      if |pointsSrc| == |pointsDst| {
        pointsSrc := pointsSrc + [p];
      } else {
        pointsDst := pointsDst + [p];
      }
      history := history + [Click(p)];
      assert history[..|history| - 1] == old(history);
      ReplayBalanced(history);
    }

    /** `clear_points`: empties both lists and hands back the current image
        (none before the first upload). */
    method ClearPoints() returns (shown: array2?<Pixel>)
      requires Valid()
      modifies this
      ensures Valid()
      ensures pointsSrc == [] && pointsDst == []
      ensures image == old(image) && shown == image
      ensures history == old(history) + [Clear]
    {
      pointsSrc := [];
      pointsDst := [];
      history := history + [Clear];
      shown := image;
    }
  }
}
