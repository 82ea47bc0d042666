# Shader source loader

This project models the shader-file loader of a small OpenGL triangle demo.
The loader is `ParseShader`, together with the `ShaderProgramSource` record
it returns. It reads a combined shader file line by line. It splits the
file into a vertex section and a fragment section:

- a line containing `#shader` is a marker line;
  - the marker selects the vertex section when it also contains `vertex`;
  - otherwise it selects the fragment section when it contains `fragment`;
  - otherwise it leaves the selection as it was;
- marker lines are dropped;
- every other line (a body line) is appended, followed by `'\n'`, to the
  buffer of the selected section;
- the two buffers are returned.

The model is in two modules.

- `Text` (`text.dfy`) holds the string helpers.
  - `Contains` is substring search, i.e. `find(...) != npos`. It is proved
    equal to "some window equals the pattern".
  - `Join` is what `ss << line << '\n'` accumulates.
  - `SplitLines` is the splitting done by repeated `getline` calls: a final
    unterminated line is still produced, and a trailing `'\n'` does not add
    an empty line. `SplitJoin` proves `SplitLines(Join(L)) == L` for lines
    without '\n', and `JoinSplit` proves `Join(SplitLines(t)) == Terminate(t)`:
    the text comes back with a '\n' added when its last line was unterminated.
- `ShaderSource` (`shader_source.dfy`) holds the loader itself, in three layers.
  - `ParseShader` is a method with the source's loop. It keeps a mutable
    selector and a two-slot `array<string>` standing for `stringstream ss[2]`,
    and it is proved equal to the specification function `Parse`.
  - `Parse`, `Feed` and `Step` are the specification: one step per line.
  - `SelectorAfter`, `Orphan` and `Assigned` describe the result without the
    step function. `FeedCharacterized` and `ParseCharacterized` prove that
    this description agrees with `Parse`.

A body line met before any marker has selected a section makes the source
write to `ss[-1]` (`ShaderType::NONE` is -1). That is outside the array. The
model returns `Err(BodyBeforeMarker(i))` for it instead, where `i` is the
index of that line. See "## Findings" below.

The model works on the lines of the file. The file itself, and the
`ifstream` opened on it, are not modelled. The code does not report a
missing or unreadable file as an error: it reads zero lines from it, and
zero lines give two empty outputs, in the code and in the model alike.

## Model

| member | source | states |
|---|---|---|
| ShaderSource.ParseShader | Shader/src/Application.cpp:17-43 | The loop over the lines, with a selector and a two-slot buffer array, returns exactly `Parse(lines)`; zero lines give two empty sources |
| ShaderSource.Slot | Shader/src/Application.cpp:20-22 | The buffer index `(int)type` is inside the two-slot array exactly when a section is selected |
| ShaderSource.FeedBody | Shader/src/Application.cpp:38-40 | While a section is selected, body lines are appended in order, each followed by one '\n', to that section's buffer; the selector and the other buffer stay unchanged |
| ShaderSource.MarkerSelectsSection | Shader/src/Application.cpp:28-36 | After a marker, the following body lines go to the vertex buffer when the marker contains "vertex" (even if it also contains "fragment"). They go to the fragment buffer when it contains only "fragment". The other buffer is unchanged |
| ShaderSource.NeutralMarker | Shader/src/Application.cpp:28-37 | A marker with neither keyword changes neither whether the input is accepted nor the outputs |
| ShaderSource.FeedAppend | Shader/src/Application.cpp:27-41 | Running the loop over `p + q` is running it over `p`, then continuing over `q` unless `p` failed |
| ShaderSource.FeedPosition | Shader/src/Application.cpp:27-41 | Whether the loop succeeds, and what it produces, does not depend on the index the lines start at |
| ShaderSource.FeedCharacterized | Shader/src/Application.cpp:26-41 | From the initial state, the loop succeeds iff no body line precedes the first selecting marker. On success the selector is the last one chosen and each buffer is the join of its section's body lines in file order. On failure the error names the first such line |
| ShaderSource.StepJoins | Shader/src/Application.cpp:28-40 | One step fails, naming the line, exactly on a body line read with nothing selected. Otherwise a body line is added to the line list of the selected section only, and a marker changes only the selector |
| ShaderSource.ParseCharacterized | Shader/src/Application.cpp:27-42 | The same for the returned `ShaderProgramSource`: accepted iff there is no orphan body line; each output is `Join` of its section's body lines in order; an error names the first orphan |
| ShaderSource.AssignedAreBodyLines | Shader/src/Application.cpp:38-40 | Every line assigned to a section is a non-marker line of the input |
| ShaderSource.MarkersNeverCopied | Shader/src/Application.cpp:28-40 | Neither output ever contains `#shader` |
| ShaderSource.StepNewlines | Shader/src/Application.cpp:39 | One step adds exactly one '\n' for a body line and none for a marker, and it keeps both buffers '\n'-terminated |
| ShaderSource.FeedNewlines | Shader/src/Application.cpp:39 | Over any run, the '\n' count of the buffers grows by the number of body lines, and terminated buffers stay terminated |
| ShaderSource.NewlinesPerBodyLine | Shader/src/Application.cpp:39-42 | For lines without '\n', each output is empty or ends in '\n', and the two outputs together hold one '\n' per body line |
| ShaderSource.TwoSections | Shader/src/Application.cpp:27-42 | A file made of a marker for one section, its body, a marker for the other section and its body parses to the two joined bodies, each assigned to the section its marker names |
| ShaderSource.RoundTrip | Shader/src/Application.cpp:27-42 | `Parse(["#shader vertex"] + V + ["#shader fragment"] + F) == Ok(Join(V), Join(F))` for marker-free V and F |
| ShaderSource.RoundTripFragmentFirst | Shader/src/Application.cpp:27-42 | The same round trip with the fragment section first |
| ShaderSource.TextRoundTrip | Shader/src/Application.cpp:27-42 | The generated file, joined into text and split again as `getline` splits it, parses back to `Join(V)` and `Join(F)` |
| ShaderSource.LeadingBodyLine | Shader/src/Application.cpp:26-39 | For the file `["void main() {}"]` the source's write index is -1, which is outside the array; the model rejects the file with `BodyBeforeMarker(0)` |
| ShaderSource.VertexMarkerLine | Shader/src/Application.cpp:28-31 | `"#shader vertex"` is a marker line that selects the vertex section |
| ShaderSource.FragmentMarkerLine | Shader/src/Application.cpp:28-35 | `"#shader fragment"` is a marker line that contains "fragment" but not "vertex" |
| Text.ContainsIff | Shader/src/Application.cpp:28 | The search `find(pat) != npos` holds exactly when some window of the line equals the pattern |
| Text.ContainsAt | Shader/src/Application.cpp:28 | A pattern occurring at a known position is found |
| Text.MissingFirstChar | Shader/src/Application.cpp:28 | A pattern whose first character does not occur in the line is not found |
| Text.NoMatchAcrossNewline | Shader/src/Application.cpp:39 | A pattern without '\n' found in `a + "\n" + b` is found in `a` or in `b` |
| Text.JoinSnoc | Shader/src/Application.cpp:39 | Appending one more line and its '\n' extends the joined text at its end |
| Text.JoinAvoids | Shader/src/Application.cpp:39 | Joining lines none of which contains a '\n'-free pattern produces no occurrence of it |
| Text.NewlineIndex | Shader/src/Application.cpp:27 | The index where `getline` stops is within the text and holds a '\n' when it is not the end |
| Text.NewlineFrom | Shader/src/Application.cpp:27 | The forward scan for '\n' from index `i` stops at or after `i`, within the text, and on a '\n' unless it reached the end |
| Text.NewlineFromIsFirst | Shader/src/Application.cpp:27 | The forward scan for '\n' passes no '\n' before the one it stops at |
| Text.NewlineIndexIsFirst | Shader/src/Application.cpp:27 | No '\n' comes before that index |
| Text.SplitLinesHaveNoNewline | Shader/src/Application.cpp:27 | No line extracted by `getline` contains '\n' |
| Text.SplitJoin | Shader/src/Application.cpp:27 | Splitting the joined text of '\n'-free lines gives the lines back |
| Text.JoinSplit | Shader/src/Application.cpp:27 | Joining the split lines gives the text back, with a '\n' added when its last line was unterminated |

## Left out

- File I/O: `ifstream stream(filepath)` is not modelled. The model takes the file's lines as a sequence. A missing file gives zero lines, and zero lines give two empty outputs, as in the code.
- `CompileShader`, `CreateShader` and `main` are not part of this model. They consist of OpenGL, GLEW and GLFW driver calls, floating-point vertex data and a render loop.
- `std::string::find` returns a position. The model keeps only whether that position is `npos`, which is all the loader uses.
- A Dafny `char` stands for one byte of a `std::string`: `find` and `getline` work on bytes, and every pattern they look for (`#shader`, `vertex`, `fragment`, '\n') is ASCII, so each is one `char` per byte in the model. No encoding is modelled.
- `std::stringstream` is modelled as a string that grows by concatenation. `ss[i].str()` is that string.
- `getline` keeps a '\r' before the '\n' as part of the line. `SplitLines` does the same, since it splits on '\n' only. The file is opened in text mode, and on platforms whose text streams translate "\r\n" into "\n" the '\r' never reaches `getline`; that translation belongs to the stream, which is left out with the rest of the file I/O. Stream failure in the middle of the file is not modelled.
- The write to `ss[-1]` for a body line before any selecting marker is undefined behaviour in the source. The model returns an error result there instead of guessing a behaviour.
- ShaderSource.NeutralMarker: when the input is rejected, the lemma states only that it is rejected both with and without the marker. It does not state how the error's line index shifts by one.

## Findings

| source | as written | input that shows it | evidently intended | confidence | as-written member | corrected member |
|---|---|---|---|---|---|---|
| Shader/src/Application.cpp:39 | `ss[(int)type] << line << '\n'` runs while `type` is still `ShaderType::NONE` (-1), so it writes outside the two-slot array | a file whose first line is `void main() {}` | a body line before the first selecting marker is rejected, not written to slot -1 | high; not executed | ShaderSource.LeadingBodyLine | ShaderSource.ParseShader |
