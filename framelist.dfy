/** The frame indexer: which directory entries are frames, their ids, and the
    id-ordered frame list. */
module FrameIndex {
  import opened Common
  import opened Text

  type Path = string

  /** A frame file: the id parsed from its name and its full path. */
  datatype Frame = Frame(id: nat, path: Path)

  /** One item of the directory stream. `name` is `None` when the file name is
      not valid UTF-8; `readable` is false when the stream yielded an I/O error
      in place of the entry. */
  datatype DirEntry = DirEntry(name: Option<string>, path: Path, readable: bool)

  /** A directory as `read_dir` sees it. */
  datatype Directory = Unlistable(why: string) | Listing(entries: seq<DirEntry>)

  const LIST_FAILED_MSG := "failed to list files in source directory"

  // ---------------------------------------------------------------------
  // The name pattern `(\d+)\.\w{3,4}`, unanchored, leftmost match first.
  // ---------------------------------------------------------------------

  /** Where the run of digits starting at `p` ends. */
  function DigitRunEnd(s: string, p: nat): (q: nat)
    requires p <= |s|
    ensures p <= q <= |s| && (q == |s| || !IsAsciiDigit(s[q]))
    ensures forall k :: p <= k < q ==> IsAsciiDigit(s[k])
    decreases |s| - p
  {
    if p < |s| && IsAsciiDigit(s[p]) then DigitRunEnd(s, p + 1) else p
  }

  /** The pattern as a language: `s[p..q]` is one or more digits, `s[q]` is a dot
      and `s[q + 1..e]` is three or four word characters. */
  ghost predicate MatchSpan(s: string, p: nat, q: nat, e: nat)
  {
    p < q < e <= |s| && (e - q - 1 == 3 || e - q - 1 == 4) &&
    (forall k :: p <= k < q ==> IsAsciiDigit(s[k])) &&
    s[q] == '.' &&
    (forall k :: q + 1 <= k < e ==> IsAsciiWord(s[k]))
  }

  /** Whether some match starts at `p`. Greedy `\d+` must stop at the end of the
      digit run, since a dot never is a digit. */
  predicate MatchesAt(s: string, p: nat)
  {
    p < |s| && IsAsciiDigit(s[p]) &&
    var q := DigitRunEnd(s, p);
    q + 4 <= |s| && s[q] == '.' &&
    IsAsciiWord(s[q + 1]) && IsAsciiWord(s[q + 2]) && IsAsciiWord(s[q + 3])
  }

  /** `MatchesAt` decides the pattern at `p`, and every match at `p` has the same
      digit group: the whole digit run. */
  lemma MatchesAtSpec(s: string, p: nat)
    ensures MatchesAt(s, p) <==> exists q, e :: MatchSpan(s, p, q, e)
    ensures forall q, e :: MatchSpan(s, p, q, e) ==> q == DigitRunEnd(s, p)
  {
    if MatchesAt(s, p) {
      var q := DigitRunEnd(s, p);
      assert MatchSpan(s, p, q, q + 4);
    }
  }

  /** The leftmost position at or after `p` where a match starts. */
  function FirstMatchFrom(s: string, p: nat): (r: Option<nat>)
    requires p <= |s|
    ensures r.Some? ==> p <= r.value < |s| && MatchesAt(s, r.value)
    ensures r.Some? ==> forall k :: p <= k < r.value ==> !MatchesAt(s, k)
    ensures r.None? ==> forall k :: p <= k < |s| ==> !MatchesAt(s, k)
    decreases |s| - p
  {
    if p == |s| then None
    else if MatchesAt(s, p) then Some(p)
    else FirstMatchFrom(s, p + 1)
  }

  /** `NAME_REGEX.captures(name)` followed by `.get(1)`: the digit group of the
      leftmost match. The group always takes part in a match, so `get(1)` does
      not fail on its own. */
  function CaptureId(name: string): (g: Option<string>)
    ensures g.Some? ==> |g.value| > 0 && AllDigits(g.value)
  {
    match FirstMatchFrom(name, 0)
    case None => None
    case Some(p) => Some(name[p..DigitRunEnd(name, p)])
  }

  /** `FrameList::filter_item`: a UTF-8 name, a match, and a digit group that
      fits in a `u64`. */
  function FilterItem(e: DirEntry): (r: Option<Frame>)
    ensures r.Some? ==> r.value.path == e.path && r.value.id <= U64_MAX
  {
    match e.name
    case None => None
    case Some(fname) =>
      match CaptureId(fname)
      case None => None
      case Some(g) =>
        match ParseUnsigned(g, U64_MAX)
        case Err(_) => None
        case Ok(id) => Some(Frame(id, e.path))
  }

  /** An entry is a frame exactly when its name is UTF-8, contains a match, and the
      leftmost match's digit group fits in a `u64`; the id is that group's value
      and the path is the entry's own. Digit runs that overflow are skipped, not
      reported. */
  lemma FilterItemSpec(e: DirEntry)
    ensures FilterItem(e).Some?
        <==> e.name.Some? && CaptureId(e.name.value).Some?
             && DecimalValue(CaptureId(e.name.value).value) <= U64_MAX
    ensures FilterItem(e).Some?
        ==> FilterItem(e) == Some(Frame(DecimalValue(CaptureId(e.name.value).value), e.path))
  {
    if e.name.Some? && CaptureId(e.name.value).Some? {
      var g := CaptureId(e.name.value).value;
      assert LiteralDigits(g) == g;
      ParseUnsignedSpec(g, U64_MAX);
    }
  }

  /** A name with no match anywhere is never a frame. */
  lemma NoMatchNoFrame(e: DirEntry)
    requires e.name.Some?
    requires forall k :: 0 <= k < |e.name.value| ==> !MatchesAt(e.name.value, k)
    ensures FilterItem(e) == None
  {
  }

  /** The match is not anchored: a prefix before the digits is skipped, and the
      leading zeros of the digit group do not matter. A name without a
      digit-dot-extension part is no frame. */
  lemma FrameNameExamples()
    ensures FilterItem(DirEntry(Some("frame_0007.png"), "in/frame_0007.png", true))
         == Some(Frame(7, "in/frame_0007.png"))
    ensures FilterItem(DirEntry(Some("report.txt"), "in/report.txt", true)) == None
    ensures FilterItem(DirEntry(None, "in/x1.png", true)) == None
  {
    var a := "frame_0007.png";
    assert DigitRunEnd(a, 6) == 10;
    assert MatchesAt(a, 6);
    assert FirstMatchFrom(a, 6) == Some(6);
    assert FirstMatchFrom(a, 5) == Some(6);
    assert FirstMatchFrom(a, 4) == Some(6);
    assert FirstMatchFrom(a, 3) == Some(6);
    assert FirstMatchFrom(a, 2) == Some(6);
    assert FirstMatchFrom(a, 1) == Some(6);
    assert FirstMatchFrom(a, 0) == Some(6);
    assert a[6..10] == "0007";
    assert CaptureId(a) == Some("0007");
    assert ParseUnsigned("0007", U64_MAX) == Ok(7);
    var b := "report.txt";
    forall k | 0 <= k < |b| ensures !MatchesAt(b, k) {
    }
    NoMatchNoFrame(DirEntry(Some(b), "in/report.txt", true));
  }

  /** What the two `filter_map`s keep of one stream item. */
  function Keep(e: DirEntry): Option<Frame>
  {
    if e.readable then FilterItem(e) else None
  }

  /** The kept frames in encounter order (the `collect` of the stream). */
  function Collect(entries: seq<DirEntry>): (frames: seq<Frame>)
    ensures |frames| <= |entries|
    decreases |entries|
  {
    if entries == [] then []
    else
      var rest := Collect(entries[1..]);
      match Keep(entries[0])
      case None => rest
      case Some(f) => [f] + rest
  }

  /** Every collected frame comes from a readable entry, with that entry's path,
      and every kept entry is collected. */
  lemma {:induction false} CollectSpec(entries: seq<DirEntry>)
    ensures forall f :: (f in Collect(entries)
        <==> exists i :: 0 <= i < |entries| && entries[i].readable && FilterItem(entries[i]) == Some(f))
    decreases |entries|
  {
    if entries != [] {
      CollectSpec(entries[1..]);
      forall f | (exists i :: 0 <= i < |entries[1..]| && entries[1..][i].readable
                               && FilterItem(entries[1..][i]) == Some(f))
        ensures exists i :: 0 <= i < |entries| && entries[i].readable && FilterItem(entries[i]) == Some(f)
      {
        var i :| 0 <= i < |entries[1..]| && entries[1..][i].readable && FilterItem(entries[1..][i]) == Some(f);
        assert entries[i + 1] == entries[1..][i];
      }
      forall f | (exists i :: 0 <= i < |entries| && entries[i].readable && FilterItem(entries[i]) == Some(f))
        ensures f in Collect(entries)
      {
        var i :| 0 <= i < |entries| && entries[i].readable && FilterItem(entries[i]) == Some(f);
        if i > 0 {
          assert entries[1..][i - 1] == entries[i];
        }
      }
    }
  }

  // ---------------------------------------------------------------------
  // `frames.sort()`: `Vec::sort` is stable and compares with `lt`, which the
  // hand-written `partial_cmp` defines by id alone.
  // ---------------------------------------------------------------------

  /** `a < b` as the sort sees it. */
  predicate FrameLt(a: Frame, b: Frame) { a.id < b.id }

  /** Places `f` after every frame whose id is at most its own. */
  function InsertById(sorted: seq<Frame>, f: Frame): seq<Frame>
    decreases |sorted|
  {
    if sorted == [] || !FrameLt(f, sorted[|sorted| - 1]) then sorted + [f]
    else InsertById(sorted[..|sorted| - 1], f) + [sorted[|sorted| - 1]]
  }

  /** A stable sort by id (insertion sort as the reference definition). */
  function SortById(fs: seq<Frame>): seq<Frame>
    decreases |fs|
  {
    if fs == [] then [] else InsertById(SortById(fs[..|fs| - 1]), fs[|fs| - 1])
  }

  ghost predicate SortedById(fs: seq<Frame>)
  {
    forall i, j :: 0 <= i < j < |fs| ==> fs[i].id <= fs[j].id
  }

  /** The frames with id `k`, in order. */
  function WithId(fs: seq<Frame>, k: nat): seq<Frame>
    decreases |fs|
  {
    if fs == [] then []
    else WithId(fs[..|fs| - 1], k) + (if fs[|fs| - 1].id == k then [fs[|fs| - 1]] else [])
  }

  lemma {:induction false} InsertPermutes(s: seq<Frame>, f: Frame)
    ensures multiset(InsertById(s, f)) == multiset(s) + multiset{f}
    decreases |s|
  {
    if s != [] && FrameLt(f, s[|s| - 1]) {
      InsertPermutes(s[..|s| - 1], f);
      assert s == s[..|s| - 1] + [s[|s| - 1]];
    }
  }

  /** Inserting a frame under a bound that holds for the list keeps the bound. */
  lemma {:induction false} InsertBounded(s: seq<Frame>, f: Frame, b: nat)
    requires forall i :: 0 <= i < |s| ==> s[i].id <= b
    requires f.id <= b
    ensures forall i :: 0 <= i < |InsertById(s, f)| ==> InsertById(s, f)[i].id <= b
    decreases |s|
  {
    if s != [] && FrameLt(f, s[|s| - 1]) {
      var init := s[..|s| - 1];
      assert forall i :: 0 <= i < |init| ==> init[i] == s[i];
      InsertBounded(init, f, b);
    }
  }

  lemma {:induction false} InsertSorted(s: seq<Frame>, f: Frame)
    requires SortedById(s)
    ensures SortedById(InsertById(s, f))
    decreases |s|
  {
    if s != [] && FrameLt(f, s[|s| - 1]) {
      var init, last := s[..|s| - 1], s[|s| - 1];
      assert SortedById(init) && forall i :: 0 <= i < |init| ==> init[i].id <= last.id by {
        assert forall i :: 0 <= i < |init| ==> init[i] == s[i];
      }
      InsertSorted(init, f);
      InsertBounded(init, f, last.id);
      var r := InsertById(init, f);
      assert InsertById(s, f) == r + [last];
      forall i, j | 0 <= i < j < |r + [last]| ensures (r + [last])[i].id <= (r + [last])[j].id {
        if j == |r| {
          assert (r + [last])[i] == r[i];
        } else {
          assert (r + [last])[i] == r[i] && (r + [last])[j] == r[j];
        }
      }
    }
  }

  lemma {:induction false} WithIdSnoc(s: seq<Frame>, x: Frame, k: nat)
    ensures WithId(s + [x], k) == WithId(s, k) + (if x.id == k then [x] else [])
  {
    assert (s + [x])[..|s + [x]| - 1] == s;
  }

  /** Insertion keeps every id's frames in order and puts `f` after those equal to it. */
  lemma {:induction false} InsertStable(s: seq<Frame>, f: Frame, k: nat)
    ensures WithId(InsertById(s, f), k) == WithId(s, k) + (if f.id == k then [f] else [])
    decreases |s|
  {
    if s == [] || !FrameLt(f, s[|s| - 1]) {
      WithIdSnoc(s, f, k);
    } else {
      var init, last := s[..|s| - 1], s[|s| - 1];
      InsertStable(init, f, k);
      WithIdSnoc(InsertById(init, f), last, k);
      assert s == init + [last];
      WithIdSnoc(init, last, k);
    }
  }

  /** The sort yields an id-ordered permutation in which frames with equal ids
      keep their encounter order. */
  lemma {:induction false} SortByIdSpec(fs: seq<Frame>)
    ensures SortedById(SortById(fs))
    ensures multiset(SortById(fs)) == multiset(fs)
    ensures forall k :: WithId(SortById(fs), k) == WithId(fs, k)
    decreases |fs|
  {
    if fs == [] {
    } else {
      var init, last := fs[..|fs| - 1], fs[|fs| - 1];
      SortByIdSpec(init);
      InsertSorted(SortById(init), last);
      InsertPermutes(SortById(init), last);
      assert fs == init + [last];
      forall k ensures WithId(SortById(fs), k) == WithId(fs, k) {
        InsertStable(SortById(init), last, k);
        WithIdSnoc(init, last, k);
      }
    }
  }

  /** `FrameList::from_dir`: fails only when the directory cannot be listed. */
  function FromDir(dir: Directory): Result<seq<Frame>>
  {
    match dir
    case Unlistable(why) => Err([LIST_FAILED_MSG, why])
    case Listing(entries) => Ok(SortById(Collect(entries)))
  }

  /** The frame list is ordered by id, is a permutation of the kept entries,
      keeps encounter order among equal ids, and carries each kept entry's path. */
  lemma FromDirSpec(dir: Directory)
    ensures FromDir(dir).Err? <==> dir.Unlistable?
    ensures FromDir(dir).Err? ==> FromDir(dir).chain == [LIST_FAILED_MSG, dir.why]
    ensures dir.Listing? ==>
      var frames := FromDir(dir).value;
      && SortedById(frames)
      && multiset(frames) == multiset(Collect(dir.entries))
      && (forall k :: WithId(frames, k) == WithId(Collect(dir.entries), k))
      && (forall f :: f in frames <==>
            exists i :: 0 <= i < |dir.entries| && dir.entries[i].readable
                        && FilterItem(dir.entries[i]) == Some(f))
  {
    if dir.Listing? {
      var kept := Collect(dir.entries);
      SortByIdSpec(kept);
      CollectSpec(dir.entries);
      forall f ensures f in SortById(kept) <==> f in kept {
        assert f in SortById(kept) <==> f in multiset(SortById(kept));
        assert f in kept <==> f in multiset(kept);
      }
    }
  }
}
