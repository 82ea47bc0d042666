/**
  The shader-source loader: a combined shader text, read line by line, is
  split into a vertex section and a fragment section by `#shader` marker
  lines. `Parse` is the specification (one `Step` per line, the selector and
  the two buffers threaded from line to line); `ParseShader` is the loop
  with a two-slot buffer array that the loader runs; the lemmas give an
  independent description of the result and the loader's promises.
 */
module ShaderSource {
  import opened Text

  /** The section selector; `None` stands for the source's NONE = -1. */
  datatype ShaderType = None | Vertex | Fragment

  /** The two section texts the loader returns. */
  datatype ShaderProgramSource = ShaderProgramSource(vertexSource: string, fragmentSource: string)

  /** A body line (its 0-based index) read while no section was selected. */
  datatype ParseError = BodyBeforeMarker(line: nat)

  datatype Result<T> = Ok(value: T) | Err(error: ParseError)

  const MARKER := "#shader"
  const VERTEX_KEYWORD := "vertex"
  const FRAGMENT_KEYWORD := "fragment"

  /**
    The buffer-array index `(int)type` that the source writes to; it lies
    inside the two-slot array exactly when a section is selected.
   */
  function Slot(t: ShaderType): (i: int)
    ensures 0 <= i < 2 <==> t != None
  {
    match t
    case None => -1
    case Vertex => 0
    case Fragment => 1
  }

  predicate IsMarker(line: string) {
    Contains(line, MARKER)
  }

  /** The selector after a marker line: "vertex" is tested first, then "fragment". */
  function Select(t: ShaderType, marker: string): ShaderType {
    if Contains(marker, VERTEX_KEYWORD) then Vertex
    else if Contains(marker, FRAGMENT_KEYWORD) then Fragment
    else t
  }

  /** Appends `text` to the buffer of section `t`. */
  function Extend(src: ShaderProgramSource, t: ShaderType, text: string): ShaderProgramSource
    requires t != None
  {
    if t == Vertex then src.(vertexSource := src.vertexSource + text)
    else src.(fragmentSource := src.fragmentSource + text)
  }

  lemma ExtendTwice(src: ShaderProgramSource, t: ShaderType, a: string, b: string)
    requires t != None
    ensures Extend(Extend(src, t, a), t, b) == Extend(src, t, a + b)
  {
    assert src.vertexSource + a + b == src.vertexSource + (a + b);
    assert src.fragmentSource + a + b == src.fragmentSource + (a + b);
  }

  /** The loader's state between two lines. */
  datatype Scan = Scan(selector: ShaderType, src: ShaderProgramSource)

  const START := Scan(None, ShaderProgramSource("", ""))

  /** One iteration of the loop, on the line at index `at`. */
  function Step(s: Scan, line: string, at: nat): Result<Scan> {
    if IsMarker(line) then Ok(s.(selector := Select(s.selector, line)))
    else if s.selector == None then Err(BodyBeforeMarker(at))
    else Ok(s.(src := Extend(s.src, s.selector, line + "\n")))
  }

  /** The loop from state `s` over `lines`, the first of which has index `at`. */
  function Feed(s: Scan, lines: seq<string>, at: nat): Result<Scan>
    decreases |lines|
  {
    if lines == [] then Ok(s)
    else
      match Step(s, lines[0], at)
      case Err(e) => Err(e)
      case Ok(next) => Feed(next, lines[1..], at + 1)
  }

  /** Continues a partial run with more lines; an error stops it. */
  function Continue(r: Result<Scan>, lines: seq<string>, at: nat): Result<Scan> {
    match r
    case Err(e) => Err(e)
    case Ok(s) => Feed(s, lines, at)
  }

  /** The specification of the loader on the lines of a file. */
  function Parse(lines: seq<string>): Result<ShaderProgramSource> {
    match Feed(START, lines, 0)
    case Err(e) => Err(e)
    case Ok(s) => Ok(s.src)
  }

  /**
    The loader: a selector and a two-slot buffer array updated line by line.
    A body line met while no section is selected is reported instead of
    being written to slot -1.
   */
  method ParseShader(lines: seq<string>) returns (r: Result<ShaderProgramSource>)
    ensures r == Parse(lines)
    ensures lines == [] ==> r == Ok(ShaderProgramSource("", ""))
  {
    var ss := new string[2](_ => "");
    var current := None;
    var i := 0;
    while i < |lines|
      invariant 0 <= i <= |lines|
      invariant Feed(START, lines, 0) == Feed(Scan(current, ShaderProgramSource(ss[0], ss[1])), lines[i..], i)
    {
      var line := lines[i];
      assert lines[i..][0] == line && lines[i..][1..] == lines[i + 1..];
      ghost var before := Scan(current, ShaderProgramSource(ss[0], ss[1]));
      if Contains(line, MARKER) {
        if Contains(line, VERTEX_KEYWORD) {
          current := Vertex;
        } else if Contains(line, FRAGMENT_KEYWORD) {
          current := Fragment;
        }
        assert Step(before, line, i) == Ok(Scan(current, before.src));
      } else {
        if current == None {
          return Err(BodyBeforeMarker(i));
        }
        var slot := Slot(current);
        assert before.src.vertexSource + (line + "\n") == ss[0] + line + "\n";
        assert before.src.fragmentSource + (line + "\n") == ss[1] + line + "\n";
        ss[slot] := ss[slot] + line + "\n";
        assert Step(before, line, i) == Ok(Scan(current, ShaderProgramSource(ss[0], ss[1])));
      }
      i := i + 1;
    }
    assert lines[i..] == [];
    return Ok(ShaderProgramSource(ss[0], ss[1]));
  }

  // ---------------------------------------------------------------------
  // Running the loop in pieces

  /** Running over `p + q` is running over `p`, then over `q`. */
  lemma {:induction false} FeedAppend(s: Scan, p: seq<string>, q: seq<string>, at: nat)
    ensures Feed(s, p + q, at) == Continue(Feed(s, p, at), q, at + |p|)
    decreases |p|
  {
    if p == [] {
      assert p + q == q;
    } else {
      assert (p + q)[0] == p[0];
      assert (p + q)[1..] == p[1..] + q;
      match Step(s, p[0], at)
      case Err(e) =>
      case Ok(next) => FeedAppend(next, p[1..], q, at + 1);
    }
  }

  /**
    Body lines read while a section is selected land, each followed by one
    '\n' and in order, at the end of that section's buffer; the selector and
    the other buffer do not change.
   */
  lemma {:induction false} FeedBody(s: Scan, body: seq<string>, at: nat)
    requires s.selector != None
    requires forall l :: l in body ==> !IsMarker(l)
    ensures Feed(s, body, at) == Ok(Scan(s.selector, Extend(s.src, s.selector, Join(body))))
    decreases |body|
  {
    var t := s.selector;
    if body == [] {
      assert s.src.vertexSource + "" == s.src.vertexSource;
      assert s.src.fragmentSource + "" == s.src.fragmentSource;
    } else {
      assert body[0] in body;
      var next := Scan(t, Extend(s.src, t, body[0] + "\n"));
      assert Step(s, body[0], at) == Ok(next);
      FeedBody(next, body[1..], at + 1);
      ExtendTwice(s.src, t, body[0] + "\n", Join(body[1..]));
      assert body[0] + "\n" + Join(body[1..]) == Join(body);
    }
  }

  // ---------------------------------------------------------------------
  // What a marker line does

  /**
    A marker line containing "vertex" selects the vertex section, even when
    it also contains "fragment"; one containing only "fragment" selects the
    fragment section. The body lines after it go, in order, to the end of
    the selected buffer, and the other buffer is left as it was.
   */
  lemma MarkerSelectsSection(p: seq<string>, marker: string, body: seq<string>)
    requires IsMarker(marker) && Parse(p).Ok?
    requires forall l :: l in body ==> !IsMarker(l)
    ensures Contains(marker, VERTEX_KEYWORD) ==>
      Parse(p + [marker] + body) ==
        Ok(ShaderProgramSource(Parse(p).value.vertexSource + Join(body), Parse(p).value.fragmentSource))
    ensures !Contains(marker, VERTEX_KEYWORD) && Contains(marker, FRAGMENT_KEYWORD) ==>
      Parse(p + [marker] + body) ==
        Ok(ShaderProgramSource(Parse(p).value.vertexSource, Parse(p).value.fragmentSource + Join(body)))
  {
    var s := Feed(START, p, 0).value;
    assert p + [marker] + body == p + ([marker] + body);
    FeedAppend(START, p, [marker] + body, 0);
    assert ([marker] + body)[0] == marker && ([marker] + body)[1..] == body;
    var next := s.(selector := Select(s.selector, marker));
    assert Feed(s, [marker] + body, |p|) == Feed(next, body, |p| + 1);
    if next.selector != None {
      FeedBody(next, body, |p| + 1);
    }
  }

  /** Running from two positions differs at most in the line an error names. */
  lemma {:induction false} FeedPosition(s: Scan, lines: seq<string>, a: nat, b: nat)
    ensures Feed(s, lines, a).Ok? == Feed(s, lines, b).Ok?
    ensures Feed(s, lines, a).Ok? ==> Feed(s, lines, a) == Feed(s, lines, b)
    decreases |lines|
  {
    if lines != [] {
      match Step(s, lines[0], a)
      case Err(e) =>
      case Ok(next) => FeedPosition(next, lines[1..], a + 1, b + 1);
    }
  }

  /**
    A marker line with neither keyword contributes nothing: removing it
    changes neither whether the input is accepted nor the two outputs.
   */
  lemma NeutralMarker(p: seq<string>, marker: string, q: seq<string>)
    requires IsMarker(marker)
    requires !Contains(marker, VERTEX_KEYWORD) && !Contains(marker, FRAGMENT_KEYWORD)
    ensures Parse(p + [marker] + q).Ok? == Parse(p + q).Ok?
    ensures Parse(p + q).Ok? ==> Parse(p + [marker] + q) == Parse(p + q)
  {
    assert p + [marker] + q == p + ([marker] + q);
    FeedAppend(START, p, [marker] + q, 0);
    FeedAppend(START, p, q, 0);
    match Feed(START, p, 0)
    case Err(e) =>
    case Ok(s) =>
      assert ([marker] + q)[0] == marker && ([marker] + q)[1..] == q;
      assert Feed(s, [marker] + q, |p|) == Feed(s, q, |p| + 1);
      FeedPosition(s, q, |p| + 1, |p|);
  }

  // ---------------------------------------------------------------------
  // An independent description of the result

  /** The selector in effect after `lines`: the last keyword of a marker wins. */
  function SelectorAfter(lines: seq<string>): ShaderType
    decreases |lines|
  {
    if lines == [] then None
    else
      var last := lines[|lines| - 1];
      var before := SelectorAfter(lines[..|lines| - 1]);
      if IsMarker(last) then Select(before, last) else before
  }

  /** Line `k` is a body line read before any marker selected a section. */
  predicate Orphan(lines: seq<string>, k: nat) {
    k < |lines| && !IsMarker(lines[k]) && SelectorAfter(lines[..k]) == None
  }

  /** The body lines of `lines` that belong to section `t`, in file order. */
  function Assigned(lines: seq<string>, t: ShaderType): seq<string>
    decreases |lines|
  {
    if lines == [] then []
    else
      var k := |lines| - 1;
      Assigned(lines[..k], t) +
        (if !IsMarker(lines[k]) && SelectorAfter(lines[..k]) == t then [lines[k]] else [])
  }

  /** The state the characterization predicts after `lines`. */
  function Described(lines: seq<string>): Scan {
    Scan(SelectorAfter(lines),
         ShaderProgramSource(Join(Assigned(lines, Vertex)), Join(Assigned(lines, Fragment))))
  }

  /** The loop from the start, described without the step function. */
  lemma {:induction false} FeedCharacterized(lines: seq<string>)
    ensures Feed(START, lines, 0).Ok? <==> forall k :: 0 <= k < |lines| ==> !Orphan(lines, k)
    ensures Feed(START, lines, 0).Ok? ==> Feed(START, lines, 0).value == Described(lines)
    ensures Feed(START, lines, 0).Err? ==>
      var k := Feed(START, lines, 0).error.line;
      Orphan(lines, k) && forall j :: 0 <= j < k ==> !Orphan(lines, j)
    decreases |lines|
  {
    if lines != [] {
      var n := |lines| - 1;
      var p, last := lines[..n], lines[n];
      assert lines == p + [last];
      FeedCharacterized(p);
      FeedAppend(START, p, [last], 0);
      forall j | 0 <= j < n
        ensures Orphan(lines, j) == Orphan(p, j)
      {
        assert lines[..j] == p[..j];
      }
      match Feed(START, p, 0)
      case Err(e) =>
      case Ok(s) =>
        assert Feed(s, [last], n) == Continue(Step(s, last, n), [], n + 1);
        StepJoins(s, last, n, Assigned(p, Vertex), Assigned(p, Fragment));
        SelectorAfterSnoc(p, last);
        AssignedSnoc(p, last, Vertex);
        AssignedSnoc(p, last, Fragment);
        OrphanSnoc(p, last);
    }
  }

  /** The selector after one more line. */
  lemma SelectorAfterSnoc(p: seq<string>, last: string)
    ensures SelectorAfter(p + [last]) ==
      if IsMarker(last) then Select(SelectorAfter(p), last) else SelectorAfter(p)
  {
    assert (p + [last])[..|p|] == p;
  }

  /** The lines of a section after one more line: it joins them when it is a body line of that section. */
  lemma AssignedSnoc(p: seq<string>, last: string, t: ShaderType)
    ensures Assigned(p + [last], t) ==
      Assigned(p, t) + (if !IsMarker(last) && SelectorAfter(p) == t then [last] else [])
  {
    assert (p + [last])[..|p|] == p;
  }

  /** The last line of `p + [last]` is an orphan when it is a body line and nothing was selected before it. */
  lemma OrphanSnoc(p: seq<string>, last: string)
    ensures Orphan(p + [last], |p|) <==> !IsMarker(last) && SelectorAfter(p) == None
  {
    assert (p + [last])[..|p|] == p && (p + [last])[|p|] == last;
  }

  /**
    One step on buffers that join the line lists `vs` and `fs`: it fails,
    naming the line, exactly on a body line with nothing selected; otherwise
    a body line joins the list of the selected section only, and a marker
    changes only the selector.
   */
  lemma StepJoins(s: Scan, line: string, at: nat, vs: seq<string>, fs: seq<string>)
    requires s.src == ShaderProgramSource(Join(vs), Join(fs))
    ensures Step(s, line, at).Err? <==> !IsMarker(line) && s.selector == None
    ensures Step(s, line, at).Err? ==> Step(s, line, at).error.line == at
    ensures Step(s, line, at).Ok? ==>
      var body := !IsMarker(line);
      Step(s, line, at).value ==
        Scan(if body then s.selector else Select(s.selector, line),
             ShaderProgramSource(
               Join(vs + (if body && s.selector == Vertex then [line] else [])),
               Join(fs + (if body && s.selector == Fragment then [line] else []))))
  {
    assert vs + [] == vs && fs + [] == fs;
    if !IsMarker(line) && s.selector != None {
      JoinSnoc(vs, line);
      JoinSnoc(fs, line);
    }
  }

  /**
    The loader accepts the input exactly when no body line comes before the
    first marker that selects a section, and then each output is the body
    lines of its section, in file order, each followed by one '\n'. On
    rejection the error names the first such body line.
   */
  lemma ParseCharacterized(lines: seq<string>)
    ensures Parse(lines).Ok? <==> forall k :: 0 <= k < |lines| ==> !Orphan(lines, k)
    ensures Parse(lines).Ok? ==>
      Parse(lines).value ==
        ShaderProgramSource(Join(Assigned(lines, Vertex)), Join(Assigned(lines, Fragment)))
    ensures Parse(lines).Err? ==>
      var k := Parse(lines).error.line;
      Orphan(lines, k) && forall j :: 0 <= j < k ==> !Orphan(lines, j)
  {
    FeedCharacterized(lines);
  }

  /** The lines of a section are body lines of the input. */
  lemma {:induction false} AssignedAreBodyLines(lines: seq<string>, t: ShaderType)
    ensures forall l :: l in Assigned(lines, t) ==> l in lines && !IsMarker(l)
    decreases |lines|
  {
    if lines != [] {
      var k := |lines| - 1;
      AssignedAreBodyLines(lines[..k], t);
      assert forall l :: l in lines[..k] ==> l in lines;
    }
  }

  /** No marker text ever appears in either output. */
  lemma MarkersNeverCopied(lines: seq<string>)
    ensures Parse(lines).Ok? ==>
      !Contains(Parse(lines).value.vertexSource, MARKER) &&
      !Contains(Parse(lines).value.fragmentSource, MARKER)
  {
    ParseCharacterized(lines);
    AssignedAreBodyLines(lines, Vertex);
    AssignedAreBodyLines(lines, Fragment);
    JoinAvoids(Assigned(lines, Vertex), MARKER);
    JoinAvoids(Assigned(lines, Fragment), MARKER);
  }

  // ---------------------------------------------------------------------
  // Newline bookkeeping

  /** The number of body (non-marker) lines. */
  function BodyCount(lines: seq<string>): nat
    decreases |lines|
  {
    if lines == [] then 0
    else (if IsMarker(lines[0]) then 0 else 1) + BodyCount(lines[1..])
  }

  lemma {:induction false} FeedNewlines(s: Scan, lines: seq<string>, at: nat)
    requires forall l :: l in lines ==> '\n' !in l
    ensures Feed(s, lines, at).Ok? ==>
      var out := Feed(s, lines, at).value.src;
      Newlines(out.vertexSource) + Newlines(out.fragmentSource) ==
        Newlines(s.src.vertexSource) + Newlines(s.src.fragmentSource) + BodyCount(lines)
    ensures Feed(s, lines, at).Ok? && Terminated(s.src.vertexSource) && Terminated(s.src.fragmentSource) ==>
      Terminated(Feed(s, lines, at).value.src.vertexSource) &&
      Terminated(Feed(s, lines, at).value.src.fragmentSource)
    decreases |lines|
  {
    if lines != [] {
      var line := lines[0];
      assert line in lines;
      assert forall l :: l in lines[1..] ==> l in lines;
      match Step(s, line, at)
      case Err(e) =>
      case Ok(next) =>
        StepNewlines(s, line, at, next);
        FeedNewlines(next, lines[1..], at + 1);
    }
  }

  /** One line adds one '\n' when it is copied and none when it is a marker. */
  lemma StepNewlines(s: Scan, line: string, at: nat, next: Scan)
    requires '\n' !in line && Step(s, line, at) == Ok(next)
    ensures Newlines(next.src.vertexSource) + Newlines(next.src.fragmentSource) ==
      Newlines(s.src.vertexSource) + Newlines(s.src.fragmentSource) + BodyCount([line])
    ensures Terminated(s.src.vertexSource) && Terminated(s.src.fragmentSource) ==>
      Terminated(next.src.vertexSource) && Terminated(next.src.fragmentSource)
  {
    assert [line][1..] == [];
    if !IsMarker(line) {
      assert multiset(line + "\n")['\n'] == 1;
    }
  }

  /**
    Both outputs are empty or end in '\n', and together they hold one '\n'
    per body line of the input (when no line holds a '\n' itself, as lines
    read by `getline` never do).
   */
  lemma NewlinesPerBodyLine(lines: seq<string>)
    requires forall l :: l in lines ==> '\n' !in l
    ensures Parse(lines).Ok? ==>
      Terminated(Parse(lines).value.vertexSource) &&
      Terminated(Parse(lines).value.fragmentSource) &&
      Newlines(Parse(lines).value.vertexSource) + Newlines(Parse(lines).value.fragmentSource) ==
        BodyCount(lines)
  {
    FeedNewlines(START, lines, 0);
  }

  // ---------------------------------------------------------------------
  // Round trips with a generator of shader files

  const VERTEX_MARKER_LINE := "#shader vertex"
  const FRAGMENT_MARKER_LINE := "#shader fragment"

  /** A shader file with a vertex section, then a fragment section. */
  function Emit(vertex: seq<string>, fragment: seq<string>): seq<string> {
    [VERTEX_MARKER_LINE] + vertex + [FRAGMENT_MARKER_LINE] + fragment
  }

  /** The same file with the fragment section first. */
  function EmitFragmentFirst(vertex: seq<string>, fragment: seq<string>): seq<string> {
    [FRAGMENT_MARKER_LINE] + fragment + [VERTEX_MARKER_LINE] + vertex
  }

  /** The generated vertex marker line is a marker that names "vertex". */
  lemma VertexMarkerLine()
    ensures IsMarker(VERTEX_MARKER_LINE) && Contains(VERTEX_MARKER_LINE, VERTEX_KEYWORD)
  {
    assert VERTEX_MARKER_LINE[0..7] == MARKER;
    ContainsAt(VERTEX_MARKER_LINE, MARKER, 0);
    assert VERTEX_MARKER_LINE[8..14] == VERTEX_KEYWORD;
    ContainsAt(VERTEX_MARKER_LINE, VERTEX_KEYWORD, 8);
  }

  /** The generated fragment marker line is a marker that names only "fragment". */
  lemma FragmentMarkerLine()
    ensures IsMarker(FRAGMENT_MARKER_LINE) && Contains(FRAGMENT_MARKER_LINE, FRAGMENT_KEYWORD)
    ensures !Contains(FRAGMENT_MARKER_LINE, VERTEX_KEYWORD)
  {
    assert FRAGMENT_MARKER_LINE[0..7] == MARKER;
    ContainsAt(FRAGMENT_MARKER_LINE, MARKER, 0);
    assert FRAGMENT_MARKER_LINE[8..16] == FRAGMENT_KEYWORD;
    ContainsAt(FRAGMENT_MARKER_LINE, FRAGMENT_KEYWORD, 8);
    MissingFirstChar(FRAGMENT_MARKER_LINE, VERTEX_KEYWORD);
  }

  /**
    A file made of a marker selecting one section, its body, a marker
    selecting the other section and its body parses to the two bodies.
   */
  lemma TwoSections(first: string, a: seq<string>, second: string, b: seq<string>)
    requires IsMarker(first) && IsMarker(second)
    requires forall l :: l in a ==> !IsMarker(l)
    requires forall l :: l in b ==> !IsMarker(l)
    requires Contains(first, VERTEX_KEYWORD) || Contains(first, FRAGMENT_KEYWORD)
    requires Contains(second, VERTEX_KEYWORD) || Contains(second, FRAGMENT_KEYWORD)
    requires Contains(first, VERTEX_KEYWORD) != Contains(second, VERTEX_KEYWORD)
    ensures Contains(first, VERTEX_KEYWORD) ==>
      Parse([first] + a + [second] + b) == Ok(ShaderProgramSource(Join(a), Join(b)))
    ensures Contains(second, VERTEX_KEYWORD) ==>
      Parse([first] + a + [second] + b) == Ok(ShaderProgramSource(Join(b), Join(a)))
  {
    var empty: seq<string> := [];
    assert Parse(empty) == Ok(ShaderProgramSource("", ""));
    MarkerSelectsSection(empty, first, a);
    var p := [first] + a;
    assert empty + [first] + a == p;
    assert "" + Join(a) == Join(a);
    MarkerSelectsSection(p, second, b);
    assert "" + Join(b) == Join(b);
  }

  /** Parsing a generated file gives back each section's lines, '\n'-terminated. */
  lemma RoundTrip(vertex: seq<string>, fragment: seq<string>)
    requires forall l :: l in vertex ==> !IsMarker(l)
    requires forall l :: l in fragment ==> !IsMarker(l)
    ensures Parse(Emit(vertex, fragment)) == Ok(ShaderProgramSource(Join(vertex), Join(fragment)))
  {
    VertexMarkerLine();
    FragmentMarkerLine();
    TwoSections(VERTEX_MARKER_LINE, vertex, FRAGMENT_MARKER_LINE, fragment);
  }

  /** The same with the sections in the opposite order. */
  lemma RoundTripFragmentFirst(vertex: seq<string>, fragment: seq<string>)
    requires forall l :: l in vertex ==> !IsMarker(l)
    requires forall l :: l in fragment ==> !IsMarker(l)
    ensures Parse(EmitFragmentFirst(vertex, fragment)) == Ok(ShaderProgramSource(Join(vertex), Join(fragment)))
  {
    VertexMarkerLine();
    FragmentMarkerLine();
    TwoSections(FRAGMENT_MARKER_LINE, fragment, VERTEX_MARKER_LINE, vertex);
  }

  /**
    The same round trip through the file text: the generated lines are
    joined into a file, split as `getline` splits it, and parsed.
   */
  lemma TextRoundTrip(vertex: seq<string>, fragment: seq<string>)
    requires forall l :: l in vertex ==> !IsMarker(l) && '\n' !in l
    requires forall l :: l in fragment ==> !IsMarker(l) && '\n' !in l
    ensures Parse(SplitLines(Join(Emit(vertex, fragment)))) ==
      Ok(ShaderProgramSource(Join(vertex), Join(fragment)))
  {
    var file := Emit(vertex, fragment);
    forall l | l in file
      ensures '\n' !in l
    {
      if l !in vertex && l !in fragment {
        assert l == VERTEX_MARKER_LINE || l == FRAGMENT_MARKER_LINE;
      }
    }
    SplitJoin(file);
    RoundTrip(vertex, fragment);
  }

  // ---------------------------------------------------------------------
  // The body line before any marker

  /**
    As written, the source writes a first body line of a file that does not
    start with a marker to slot `(int)NONE` = -1 of its two-slot array,
    outside the array; the loader modelled here rejects that file instead.
   */
  lemma LeadingBodyLine()
    ensures Orphan(["void main() {}"], 0)
    ensures Slot(SelectorAfter(["void main() {}"][..0])) == -1
    ensures Parse(["void main() {}"]) == Err(BodyBeforeMarker(0))
  {
    MissingFirstChar("void main() {}", MARKER);
    assert ["void main() {}"][..0] == [];
  }
}
