# ANGLE utilities and scripts, modelled in Dafny

ANGLE's `util/` directory holds the helpers its samples and tests stand on, and `scripts/` the programs that generate
its sources and watch over its tests. This project models the parts of them that carry an argument, and proves it:

- **4x4 matrices** (`util/Matrix.cpp`) over exact reals. `MatrixValues` has the operations as the source writes them
  out, column by column; `MatrixInverse` proves the cofactor inverse through the volume its columns span;
  `MatrixRotation` and `MatrixClip` prove rotations and projections; `MatrixObject` is the array updated in place.
- **The target graph** (`scripts/export_targets.py`). `Traversal` is the depth-first walk with its callbacks, proved
  against paths of the graph; `ExportTargets` is what the script makes of it.
- **The hash cache** (`scripts/run_code_generation.py`). `CodeGeneration` says when verification accepts, when a run
  makes it accept, and how many runs do.
- **Test statistics** (`scripts/generate_stats.py`). `StepInfo` undoes messages dropped into the middle of log lines,
  `Formula` is the formula written to a sheet with a parser and an evaluator for it, `Sheets` the columns and rows, and
  `Columns` their names.
- **GL objects** (`util/shader_utils.cpp`). `GlObjects` has the rules by which shaders and programs live and die;
  `ShaderUtils` the building of a program, over every outcome of every call.
- **The EGL window** (`util/EGLWindow.cpp`). `EglBooks` accounts for handles, `EglWindow` is the window's state machine,
  `EglConfig` the choice of a config, `EglExtensions` the two ways of looking for an extension, and
  `EglContextRequest` what is asked of a new context.
- **The sphere** (`util/geometry_utils.cpp`): `Sphere`.
- **The command registry** (`scripts/registry_xml.py`): `Registry`.
- **Performance statistics** (`scripts/perf_test_runner.py`): `PerfStats`.
- **Type names** (`scripts/generate_entry_points.py`). `EntryPointTypes` is what the script reads of a type and the code
  it makes of that; `ParamTypes` has the C types themselves, read off the tokens of any spelling, and proves when the
  script agrees with them; `ParamText` splits a parameter.
- **NV12 images** (`scripts/bmp_to_nv12.py`): `Nv12`.

`Text`, `TextWords`, `Sorting` and `Arithmetic` hold the string searching, splitting, sorting and integer arithmetic
that several of them need.

Where the source updates an object, a dictionary or a buffer, the model is a class or a method with loops, and its
contract ties the new state to a specification function or predicate; the lemmas then say what that specification means.
What the outside world decides - whether a GL call fails, what a file hashes to, which handle EGL hands out - is left
open in the method that stands for it, or is a parameter. The answers of GL and EGL are kept in order, so that a
contract can say on which of them success depends.

Several properties one would expect turn out not to hold for every input. For these there is the exact condition, and
where it helps a concrete or general case outside it:

- one run of the code generators is enough for verification to accept, whatever the generators and the formatter write
  to their outputs, exactly when no output is a source of another generator (`CodeGeneration.OneRunIsEnoughIff`);
  without cycles as many runs as there are ranks are enough (`CodeGeneration.RunsConverge`);
- a dropped message is undone whatever it says exactly when it falls after the tag (`StepInfo.CutUndoneIff`);
- a program is leaked exactly when it was created and a GL error is seen at the link check, as when one was pending
  before the call and nothing else fails (`ShaderUtils.CompileProgramInternal`);
- `createContext` refuses every request on a display unless some extension before the last one listed is
  `EGL_ANGLE_program_cache_control` or ends with that name: the test at util/EGLWindow.cpp:350 looks there where its
  message speaks of another extension (`EglContextRequest.RefusedIff`). A request that is made holds everything asked
  for exactly when `EGL_KHR_create_context` is found, and the extension that holds EGL to the exact version, and, where
  robust resource initialization was set, its extension too (`EglContextRequest.WishesSentIff`); otherwise the one or
  the other is silently not sent (`EglContextRequest.DroppedInSilence`);
- after any run of an EGL window and its destructor everything has been given back exactly when no stage replaced a
  handle that was held; a second `initializeContext` always does, and a second `initializeSurface` does as soon as a
  config is found (`EglWindow.EGLWindow.RunAndDelete`);
- a substring search finds an extension of which only a longer name is listed, as `EGL_KHR_create_context` in
  `EGL_KHR_create_context_no_error` (`EglExtensions.StrstrOfLongerName`);
- the 16-bit indices of a sphere are right up to 361 slices and no further (`Sphere.CastsLosslessIff`);
- encoding and decoding a type keeps it, as a C type, exactly when no two words are written with stars and no space
  between, there are at most two pointers, the targets are all const or all not, the parameter itself is not const, and
  a const target is written with a const that stands alone (`ParamTypes.RecoveredIff`). A const written against a star
  is lost (`EntryPointTypes.TouchingConstIsLost`), and a const pointer comes back as a pointer to const
  (`ParamTypes.ConstPointerMisread`);
- a truncated mean exists exactly for n of at least one and more than 2n samples (`PerfStats.MeanIff`).

`dafny verify dfyconfig.toml` checks everything.

## Model

| member | source | states |
|---|---|---|
| MatrixInverse.ApplyMul | util/Matrix.cpp:222-289 | The product of matrices acts on vectors as one after the other. |
| MatrixInverse.MulAssoc | util/Matrix.cpp:222-256 | The product is associative. |
| MatrixInverse.DetIsVolume | util/Matrix.cpp:188-193 | The number `invert` divides by, got from one row and four cofactors, is the Leibniz determinant of the columns. |
| MatrixInverse.DetMul | util/Matrix.cpp:188-256 | That determinant is multiplicative over the product. |
| MatrixInverse.LeftAdjugate | util/Matrix.cpp:138-190 | The sixteen cofactor expressions times the matrix give the determinant times the identity. |
| MatrixInverse.InverseCorrect | util/Matrix.cpp:136-201 | For a nonzero determinant the result is a two-sided inverse, for a zero one the identity; and a left inverse exists exactly in the first case. |
| MatrixInverse.LeftInverseUnique | util/Matrix.cpp:136-201 | Any left inverse is what `invert` computes, and is a right inverse too. |
| MatrixInverse.InverseOfProduct | util/Matrix.cpp:136-256 | The inverse of a product is the product of the inverses the other way round. |
| MatrixInverse.InverseInvolution | util/Matrix.cpp:136-201 | Inverting twice gives the matrix back, and the determinants are reciprocal. |
| MatrixObject.Matrix4.ScaleInPlace | util/Matrix.cpp:274-281 | The loop over the sixteen numbers scales the matrix. |
| MatrixObject.Matrix4.MulInPlace | util/Matrix.cpp:258-262 | The compound product leaves the product of the old values, also when both operands are the same object. |
| MatrixObject.Matrix4.Equals | util/Matrix.cpp:291-301 | The loop of comparisons decides equality of the matrices. |
| MatrixObject.Matrix4.Invert | util/Matrix.cpp:136-201 | The rescaled cofactor array is the inverse on both sides, and the argument is not changed. |
| MatrixRotation.RotateCorrect | util/Matrix.cpp:79-95 | For a unit axis and a cosine and sine the rotation is orthogonal, has determinant one, is inverted by transposing, and fixes the axis. |
| MatrixRotation.RotateFixesAxis | util/Matrix.cpp:79-95 | The axis is fixed for any angle. |
| MatrixRotation.RotateTurns | util/Matrix.cpp:79-95 | Any vector v becomes cos v + (1 - cos)(u . v) u + sin (u x v) for the axis u: a turn from v towards u x v. |
| MatrixRotation.OrthogonalInverse | util/Matrix.cpp:136-208 | `invert` and `transpose` agree on every orthogonal matrix. |
| MatrixRotation.TransposeMul | util/Matrix.cpp:203-256 | Transposing reverses products. |
| MatrixRotation.RollPitchYawCorrect | util/Matrix.cpp:130-134 | The three rotations together are orthogonal, of determinant one and inverted by transposing. |
| MatrixRotation.RollPitchYawTurns | util/Matrix.cpp:130-134 | The images of the three axes under roll, then pitch, then yaw. |
| MatrixClip.FrustumClipsExactly | util/Matrix.cpp:109-114 | A point is in the view frustum exactly when its image is in the clip volume of section 2.11.2 of the OpenGL 2.1 specification. |
| MatrixClip.FrustumCoordinates | util/Matrix.cpp:109-114 | Which point goes where: the place on the near plane, seen from the origin, is the one the clip coordinates name, left and bottom at -1; and the reciprocal of the depth runs evenly from the near plane at -1 to the far one at 1. |
| MatrixClip.OrthoClipsExactly | util/Matrix.cpp:123-128 | The same for the box of `ortho`. |
| MatrixClip.OrthoCoordinates | util/Matrix.cpp:123-128 | Each coordinate, and the depth, is the one its clip coordinate names. |
| Traversal.DagTraverse.Recurse | scripts/export_targets.py:92-109 | One recursive visit keeps the log, the visited keys and the captured state consistent, and ends on every finite graph. |
| Traversal.DagTraverse.Traverse | scripts/export_targets.py:89-113 | On any finite graph, cyclic or not, each key reachable through the returned successors gets one pre- and one post-callback and no other key any; or the traversal stops where a callback raised. |
| Traversal.AcyclicPostOrder | scripts/export_targets.py:97-109 | On an acyclic graph each post-callback runs after those of all successors. |
| ExportTargets.ReplayIsUnion | scripts/export_targets.py:141-159 | Whatever the order of the callbacks, every merged list is the union over the visited targets that contribute, and everything else is as in the target itself. |
| ExportTargets.RaisesIffMalformed | scripts/export_targets.py:141-159 | The callback raises exactly on a malformed target. |
| ExportTargets.CallbackByType | scripts/export_targets.py:131-160 | What the callback does for each type of target, by name: the libraries, a copy, the three other types that are allowed, and any that is not. |
| ExportTargets.FlattenedTarget | scripts/export_targets.py:136-162 | The result is that union over the targets reachable without going through a library; it raises exactly if one of them is malformed. |
| ExportTargets.GatherLibraries | scripts/export_targets.py:268-280 | The set holds exactly the reachable libraries. |
| ExportTargets.DependsIffReached | scripts/export_targets.py:141-161 | Being reached when stopping at libraries is the same as having a path with no library strictly between. |
| ExportTargets.MergedDeps | scripts/export_targets.py:151-161 | The merged `deps` list holds exactly the targets reached. |
| ExportTargets.CutLibraries | scripts/export_targets.py:297-301 | The inner output loop collects the cut names of the libraries, and raises exactly on a name that has no type. |
| ExportTargets.CutLabel | scripts/export_targets.py:301 | A label of the root directory is cut to its plain name, so that different labels stay different. |
| ExportTargets.RewriteDeps | scripts/export_targets.py:296-302 | The final `deps` are, sorted and once each, the cut names of the libraries with a path from this one and no library between. |
| ExportTargets.DependenciesAreExported | scripts/export_targets.py:268-302 | Every such library is a key of the output. |
| ExportTargets.Export | scripts/export_targets.py:284-302 | The output has a fresh record for exactly the reachable libraries, each as described, and the target objects keep their values though the output is assigned in place; or the script raises, exactly when a target is malformed or fails its include check. |
| CodeGeneration.HashFileNamesCollide | scripts/run_code_generation.py:131-132 | Two generators share a hash file exactly when their names differ only among space, slash and underscore. |
| CodeGeneration.HashFileIsPlain | scripts/run_code_generation.py:131-132 | The hash file has no slash or space in its name, which is the name of the generator and `.json` exactly if that has none. |
| CodeGeneration.AnyHashDirty | scripts/run_code_generation.py:135-147 | The loop finds something dirty exactly when a file is missing, has no stored hash or another one, and collects the hashes of the files there are. |
| CodeGeneration.AnyOldHashMissing | scripts/run_code_generation.py:150-161 | The nested loops find exactly the stored tables and entries that have no new counterpart. |
| CodeGeneration.UpdateOutputHashes | scripts/run_code_generation.py:164-169 | All outputs are hashed again, or one is missing and the script exits. |
| CodeGeneration.CleanIffEqual | scripts/run_code_generation.py:135-161 | Verification accepts exactly when no listed file is missing and the stored tables equal the fresh ones key for key (given distinct hash files; otherwise with the stated condition on shared ones). |
| CodeGeneration.VerificationSees | scripts/run_code_generation.py:135-161 | After a clean state verification goes on accepting exactly as long as no input, output or script of a generator is lost or gets another hash. |
| CodeGeneration.Workspace.Run | scripts/run_code_generation.py:181-246 | Exit status and effect of both modes: verification changes nothing and accepts exactly a clean state. A normal run exits with 0 exactly if the state is clean or from it some course completes, with the effect of that; and otherwise with 1, with nothing stored, because a stale generator failed or an output was missing after formatting. |
| CodeGeneration.DirtyIffNotClean | scripts/run_code_generation.py:192-218 | What the loop and the check for missing entries find together is exactly that the state at the start is not clean. |
| CodeGeneration.VerifyAfterRun | scripts/run_code_generation.py:192-246 | What a completed run has to have been like: verification accepts after it exactly when no hash file is left over and each source is at the end what it was when hashed. |
| CodeGeneration.RunThenVerify | scripts/run_code_generation.py:192-246 | So a completed run is enough if generators and formatter write outputs only and no output is a source of another. |
| CodeGeneration.OneRunIsEnoughIff | scripts/run_code_generation.py:192-246 | One completed run is enough, for all generators and formatters that write outputs only and all files and hashes to start from, exactly when no output is a source of another generator. (The sources exist, the hash files are distinct and none is left over, and some two contents hash differently.) |
| CodeGeneration.ChainNeedsSecondRun | scripts/run_code_generation.py:192-246 | Two generators for which one run is not enough. |
| CodeGeneration.RunsConverge | scripts/run_code_generation.py:192-246 | If a generator ranks above those that write its sources, as many completed runs as there are ranks make verification accept, whatever the order of the generators. |
| StepInfo.BrokenLogRebuilt | scripts/generate_stats.py:296-323 | Any number of messages dropped after the tags of any lines of a log leave the same lines to be parsed. |
| StepInfo.CutUndoneIff | scripts/generate_stats.py:296-323 | A cut is undone for every message exactly when the tag comes before it. |
| StepInfo.CleanIsTagged | scripts/generate_stats.py:296-323 | Of a log with no message dropped into a tagged line, the lines parsed are all the tagged ones, each once and in order. |
| StepInfo.AddAllSummarises | scripts/generate_stats.py:324-351 | The step info holds the sum of a key's numbers or its strings joined; it raises exactly when some key is given both. |
| StepInfo.CellLimit | scripts/generate_stats.py:343-351 | No cell grows to 50000 characters unless its first string is that long, and below that nothing is left out. |
| StepInfo.InterleavingIsHarmless | scripts/generate_stats.py:295-355 | The broken log, with its messages dropped after the tags, parses to what the clean one does. |
| StepInfo.BrokenLogResult | scripts/generate_stats.py:295-355 | And that is what the values on all tagged lines of the clean log come to, key by key, in the same sense as below. |
| StepInfo.GetStepInfo | scripts/generate_stats.py:295-355 | The loop with its saved piece and its counter of lines to skip computes that result, for the broken log of every clean one. |
| StepInfo.EntryOfPrinted | scripts/generate_stats.py:323-346 | A line with a tag, a title, a key and a value between two colons is read as the key without the spaces around it and the number that int() takes, or the value without spaces. |
| StepInfo.EntryIff | scripts/generate_stats.py:323-327 | No other tagged line is read. |
| StepInfo.PrintedResult | scripts/generate_stats.py:243-355 | So the result of a broken log is what the printed values come to: raised if a key has numbers and strings or a main column is no number where there is a total, nothing without any values, and otherwise the sum or the join for each key. |
| Text.StripIff | scripts/generate_stats.py:327-341 | `strip` leaves the one part that has no space at either end and nothing but spaces around it. |
| Formula.ParsePrint | scripts/generate_stats.py:634-641 | The formula language is unambiguous: parsing any printed expression gives it back. |
| Formula.GeneratedIsPrinted | scripts/generate_stats.py:628-643 | The recursively built text is the print of an expression. |
| Formula.FormulaDetectsDuplicates | scripts/generate_stats.py:628-643 | The text parses, and its value is 1 where the row agrees with the one above on the first position of every filter column there is, and 0 elsewhere. |
| Formula.FirstRow | scripts/generate_stats.py:634-641 | In the first row the formula is an error as soon as it compares a column. |
| Formula.HelperMeaning | scripts/generate_stats.py:645-653 | The cell is empty exactly when no result column is there, and otherwise holds such a formula. |
| Sheets.ExtendedCorrect | scripts/generate_stats.py:567-576 | Adding columns moves none, misses none, and adds each missing one once. |
| Sheets.WantedIff | scripts/generate_stats.py:560-576 | The columns a sheet needs are those every sheet has, if it has a step, and the keys of its steps. |
| Sheets.SecondUpdateWritesNothing | scripts/generate_stats.py:560-588 | Updating again for the same steps changes no sheet, so that none is written back. |
| Sheets.Spreadsheet.AddMissing | scripts/generate_stats.py:568-576 | One of the two loops of a step appends exactly the missing columns, and tells whether there were any. |
| Sheets.Spreadsheet.UpdateHeaders | scripts/generate_stats.py:560-588 | Every sheet gets the columns all its steps need, and is written back exactly if that changed it. |
| Sheets.Spreadsheet.RowOf | scripts/generate_stats.py:661-672 | The row has a value for every header, in the order of the headers. |
| Sheets.EveryValueLands | scripts/generate_stats.py:560-672 | After the headers are updated every value of a step has a column, one only if there were no duplicates before, and lands in it. |
| Sheets.OtherCells | scripts/generate_stats.py:661-672 | A value of the bot lands in its column if that is one every sheet has, and a column nobody has a value for stays blank. |
| Sheets.FlagComparesResults | scripts/generate_stats.py:628-672 | The duplicate flag of an appended row says whether its results equal those of the row above. |
| GlObjects.RemoveBuilt | util/shader_utils.cpp:52-84 | Removing a program whose shaders are flagged takes exactly those with it, by section 2.10.3 of the OpenGL ES 2.0 specification. |
| GlObjects.DeleteInUse | util/shader_utils.cpp:125-169 | A returned program that has linked, deleted while in use, goes when another linked program takes its place, and then everything is as before. |
| ShaderUtils.CompileShader | util/shader_utils.cpp:87-123 | Either a new live shader of the type, compiled from the source, or no change to the objects: a shader exactly if one was created and compiled. |
| ShaderUtils.CheckLinkStatusAndReturnProgram | util/shader_utils.cpp:136-171 | The program is returned exactly if it linked, and deleted if not; with an error pending it is neither. |
| ShaderUtils.CompileProgramInternal | util/shader_utils.cpp:36-84 | A program is returned exactly if both shaders, the program, and the geometry shader where there is a source for one were created and compiled, it linked, and no error was pending at the link check; what is asked of GL stops at a shader that failed. The callback is given the program, once and between the last shader and the linking. A zero result leaves something behind exactly when an error was seen at that check and a program had been created, which then stays, unknown to the caller; an error pending before the call is enough if everything compiles and is created. Otherwise the live objects are as they were, or deleting the result restores them. A result is linked, from shaders of the right types compiled from the given sources, all flagged for deletion. |
| EglExtensions.CheckFindsTokens | util/EGLWindow.cpp:576-581 | For a name without a space the padded search finds exactly the names listed. |
| EglExtensions.CheckIsExactIff | util/EGLWindow.cpp:576-581 | It does so on all lists exactly for the names without a space. |
| EglExtensions.StrstrFindsParts | util/EGLWindow.cpp:215-257 | The substring searches find a name exactly when it is part of one listed. |
| EglExtensions.StrstrOfLongerName | util/EGLWindow.cpp:290-295 | They find a name of which only a longer one is listed. |
| EglExtensions.SpacedFindsEarlier | util/EGLWindow.cpp:340-341 | A search for a name and a space finds it, or a longer name it ends, anywhere but at the end of the list. |
| EglContextRequest.RefusedIff | util/EGLWindow.cpp:285-354 | Exactly when `createContext` gives up before asking EGL. |
| EglContextRequest.SentOnlyIfFound | util/EGLWindow.cpp:363-440 | No attribute is sent twice, and none but the no-error one without its extension being found. |
| EglContextRequest.WishesSentIff | util/EGLWindow.cpp:363-440 | A request that is made holds everything asked for exactly when `EGL_KHR_create_context` is found, the extension for the exact version is, and, if robust resource initialization was set, its extension is. A wish is missing exactly when the first is not found, or it is one of the latter two and its own is not. |
| EglContextRequest.SentIff | util/EGLWindow.cpp:363-440 | Each attribute and value that is sent: what the parameters say, where the extension is found or, for the one about errors, in any case; and nothing else. |
| EglContextRequest.DroppedInSilence | util/EGLWindow.cpp:412-428 | A display on which the request is made with its version, but not for exactly that, and without the robust resource initialization that was set. |
| EglConfig.FindEGLConfig | util/EGLWindow.cpp:512-546 | The first config that agrees with every attribute not left open, or none does and the argument is unchanged. |
| EglConfig.MatchHonours | util/EGLWindow.cpp:200-245 | A config matches the list built from the parameters exactly if it has each size asked for, samples exactly if asked for, and with the extension the component type; and the parameters read back from it are then those asked for. |
| EglWindow.EGLWindow.DestroySurface | util/EGLWindow.cpp:483-492 | A held surface is given back once, after `eglMakeCurrent` without one and with the display still held; if no handle was ever replaced while held. |
| EglWindow.EGLWindow.DestroyContext | util/EGLWindow.cpp:494-503 | The same for the context. |
| EglWindow.EGLWindow.DestroyGL | util/EGLWindow.cpp:470-481 | Nothing is held afterwards, and nothing is out either exactly if no handle was ever replaced while held; then context, surface and display are given back in this order. |
| EglWindow.EGLWindow.InitializeDisplay | util/EGLWindow.cpp:107-191 | Whatever is held: succeeds exactly if EGL is asked for a display, which it is unless an extension is missing or EGL could not be loaded, and grants and initializes one. Then a display is held, and otherwise nothing, or what was before if EGL could not be loaded. A held display is replaced exactly if EGL is asked for one and hands out none or another. |
| EglWindow.EGLWindow.InitializeSurface | util/EGLWindow.cpp:193-283 | Whatever is held besides a display: succeeds exactly if a config is found and EGL grants a surface for the first that matches, whose values become the parameters; then the surface is held, and otherwise nothing. A held surface is replaced exactly if a config was found. |
| EglWindow.EGLWindow.CreateContext | util/EGLWindow.cpp:285-450 | A new context exactly if the request is made and EGL grants binding the API and creating the context; it is asked for the request, and for one that shares with none whatever `share` is. |
| EglWindow.EGLWindow.InitializeContext | util/EGLWindow.cpp:452-468 | Whatever is held besides a display: succeeds exactly if the request is made and EGL grants the context and makes it current with the surface; then it is held, and otherwise nothing. A held context is always replaced. |
| EglWindow.EGLWindow.InitializeGL | util/EGLWindow.cpp:93-105 | Succeeds exactly if a display and a surface are asked for, the context is requested, and EGL grants every call on the way, up to the first it does not. Then all three are held, and otherwise none, or what was before if EGL could not be loaded; and which held handles were replaced, by the number of stages that succeeded. |
| EglWindow.EGLWindow.RunAndDelete | util/EGLWindow.cpp:63-66 | After any run of the operations and the destructor every handle ever handed out has been given back, exactly once, if and only if no stage replaced a held handle, and then none was used when it was not live; a run whose stages all start with their handles empty is of this kind. |
| Sphere.CellOf | util/geometry_utils.cpp:49-62 | Every index belongs to one corner of one cell of the grid. |
| Sphere.EdgesDiffer | util/geometry_utils.cpp:49-62 | No directed edge is there twice. |
| Sphere.ReverseIff | util/geometry_utils.cpp:49-62 | The reverse of an edge is there, once, exactly when the edge is not on the boundary of the grid. |
| Sphere.CastsLosslessIff | util/geometry_utils.cpp:53-61 | The 16-bit casts keep every index exactly up to 361 slices. |
| Sphere.StoredEdges | util/geometry_utils.cpp:47-63 | The same facts for the stored numbers: all below the vertex count, no edge twice, and reverses as described. |
| Sphere.OnSphere | util/geometry_utils.cpp:39-44 | Normals have length one and positions the radius. |
| Sphere.PoleAndMeridian | util/geometry_utils.cpp:35-44 | The first row is the pole on the y axis, and the first column the meridian over the z axis. |
| Sphere.FacesOutwards | util/geometry_utils.cpp:35-62 | Both triangles of a cell run counterclockwise seen from outside: the volume each spans with the centre is the sine of a row times the sines of the two angle steps. |
| Sphere.SphereGeometry.Create | util/geometry_utils.cpp:25-64 | Every vertex is placed in its row and column, and the index list has six entries a cell, each the vertex of its corner. |
| Registry.RemoveWithin | scripts/registry_xml.py:276-278 | Removing the noted duplicates one by one leaves exactly the others, in order. |
| Registry.OwnerHasIt | scripts/registry_xml.py:166-187 | Every command is listed under the annotation of the first addition that has it, as often as that has it, and nowhere else. |
| Registry.CombinedList | scripts/registry_xml.py:173-187 | The combined list covers every command listed, and has none twice if no addition does. |
| Registry.KeptAndDupes | scripts/registry_xml.py:268-284 | An addition keeps just what it owns; kept and dropped together are the multiset it lists. |
| Registry.CommandsAre | scripts/registry_xml.py:252-264 | The commands collected are those of the requires that are for no api or one asked for and are not the special case, in order and as often as listed. |
| Registry.ClassifyIff | scripts/registry_xml.py:224-235 | The annotation goes by the first of four names that some api in the bar-separated list has in its own. |
| Registry.OrderDoesNotMatter | scripts/registry_xml.py:237-284 | From the same additions, two files with the same uniquely named extensions in any order fail alike, add the same commands, and record the same kept and dropped ones. |
| Registry.KeptOfAdditions | scripts/registry_xml.py:266-284 | The lists recorded for an extension are those kept and dropped by its addition. |
| Registry.GLCommandNames.GetAllCommands | scripts/registry_xml.py:173-179 | The lists one after the other, in the order of the versions. |
| Registry.RegistryXML.AddCommands | scripts/registry_xml.py:213-222 | A feature is added with the commands not there before. |
| Registry.RegistryXML.FilterDuplicates | scripts/registry_xml.py:270-278 | The two loops split the commands of an extension into those already listed and the rest. |
| Registry.RegistryXML.AddExtensionCommands | scripts/registry_xml.py:237-284 | The wanted extensions are added in sorted order, and what each keeps and drops is recorded; it fails, adding nothing, exactly when one cannot be classified. Afterwards a command is listed exactly if it was before or some require that counts, of a wanted extension, lists it; and a new one under the annotation of such an extension. |
| Sorting.LexIff | scripts/registry_xml.py:266-268 | The order of sorting: one string before another it starts, or before one that is greater at the first difference. |
| PerfStats.MeanIff | scripts/perf_test_runner.py:34-68 | There is a truncated mean exactly for n of at least one and more than 2n samples. |
| PerfStats.TruncatedParts | scripts/perf_test_runner.py:59-63 | What is cut off are the n smallest and the n largest samples. |
| PerfStats.MeanBalances | scripts/perf_test_runner.py:34-39 | The mean is where the deviations of the samples add up to zero, and nowhere else. |
| PerfStats.MeanIsLeast | scripts/perf_test_runner.py:34-44 | The sum of square deviations is least from the mean, and greater elsewhere by the square of the distance for each sample. |
| PerfStats.CoefficientIs | scripts/perf_test_runner.py:47-56 | The coefficient times the mean is the root of the mean square deviation; there is none for fewer than two samples or a zero mean. |
| PerfStats.DriverTruncation | scripts/perf_test_runner.py:148-151 | The driver's truncation always leaves at least six samples. |
| PerfStats.PermutationInvariant | scripts/perf_test_runner.py:59-74 | Truncated mean and coefficient of variation do not depend on the order of the samples. |
| PerfStats.TruncatedMeanIsRobust | scripts/perf_test_runner.py:34-68 | Replacing up to n samples by anything keeps the truncated mean within the range of the original ones. |
| PerfStats.OneMoreIsTooMany | scripts/perf_test_runner.py:34-68 | Replacing n + 1 of 2n + 1 zeros can raise it to any value. |
| PerfStats.NoDeviationIff | scripts/perf_test_runner.py:41-44 | The squared deviations vanish exactly when all samples are equal to c. |
| PerfStats.UnitFree | scripts/perf_test_runner.py:47-56 | The coefficient of variation does not depend on the unit. |
| EntryPointTypes.GetCaptureParamTypeName | scripts/generate_entry_points.py:884-897 | The loop builds the code of what is read of the type: its words without const and stars, the number of stars, and whether a word is const. |
| EntryPointTypes.DecodeCode | scripts/generate_entry_points.py:1280-1294 | Decoding a code gives the canonical spelling of its type. |
| EntryPointTypes.DescribeCanonical | scripts/generate_entry_points.py:884-897 | The script reads of the canonical spelling the type it was made from. |
| EntryPointTypes.RoundTrip | scripts/generate_entry_points.py:884-1294 | Of the decoded name the script reads what it read of the original, and encodes it again to the same code. |
| EntryPointTypes.RecoveredIff | scripts/generate_entry_points.py:884-1294 | It reads the same again exactly for at most two pointers and no const on a plain value. |
| EntryPointTypes.CodeInjective | scripts/generate_entry_points.py:884-897 | The code tells base, const and any number of pointers apart: no name free of Const and Pointer runs on into a suffix. |
| EntryPointTypes.CodesDiffer | scripts/generate_entry_points.py:884-897 | Two spellings have the same code exactly if the same is read of them. |
| EntryPointTypes.CodeIs | scripts/generate_entry_points.py:884-897 | The codes that can be decoded, as they are written. |
| EntryPointTypes.TouchingConstIsLost | scripts/generate_entry_points.py:886-890 | A const written against the star that follows is not read. |
| ParamTypes.ReadingIff | scripts/generate_entry_points.py:884-897 | Against the C type: the depth read is always right, the base exactly when no words are written with stars and no space between, and const is read exactly when some const stands alone, whatever it belongs to. |
| ParamTypes.TargetReadIff | scripts/generate_entry_points.py:886-890 | Whether the base type is const is read right exactly when some const, wherever it is, stands alone just if a const comes before the first star; of a plain value always. |
| ParamTypes.RecoveredIff | scripts/generate_entry_points.py:884-1294 | Decoding the code gives the same C type exactly for a spelling without such glued words, with at most two pointers, its targets all const or all not, itself not const, and with a const that stands alone if the targets are const. |
| ParamTypes.SharedCodeIff | scripts/generate_entry_points.py:884-897 | Two spellings share a code exactly if the bases read and the depths agree and in both or in neither a const stands alone; without glued words the bases are those of the C types. |
| ParamTypes.ConstPointerMisread | scripts/generate_entry_points.py:884-1294 | For any plain type, a const pointer to it shares its code with the pointer to const, and is decoded to that. |
| ParamText.SplitIsLossless | scripts/generate_entry_points.py:698-711 | Type and name put together are the parameter again, except for a single word, which loses its last letter. |
| ParamText.SplitOfMade | scripts/generate_entry_points.py:698-715 | Splitting a parameter that was put together gives its parts back, a type with a star with the space after it. |
| Nv12.Luma | scripts/bmp_to_nv12.py:54 | Luma is between 16 and 235. |
| Nv12.RoundedToNearest | scripts/bmp_to_nv12.py:54-56 | Luma and chroma are the weighted sums of the colours, rounded to the nearest. |
| Nv12.Primaries | scripts/bmp_to_nv12.py:54-56 | Their values for pure red, green and blue. |
| Nv12.RangesAreTight | scripts/bmp_to_nv12.py:54-56 | The bounds of luma and chroma are reached. |
| Nv12.GreyIsNeutral | scripts/bmp_to_nv12.py:55-56 | Chroma depends on the differences of the colours only, and is 128 for grey. |
| Nv12.Convert | scripts/bmp_to_nv12.py:49-56 | Every pixel is converted, within bounds. |
| Nv12.Downsample | scripts/bmp_to_nv12.py:59-66 | For even sizes every byte of the UV buffer is written exactly once, by what the buffer records of its own writes, and is the mean, rounded down, of the two samples one below the other in the left column of its block. |
| Nv12.ExtractLuma | scripts/bmp_to_nv12.py:69-71 | Every byte of the luma buffer is written exactly once, and is the luma of its pixel. |
| Nv12.PackedRange | scripts/bmp_to_nv12.py:59-66 | Averaged chroma is between 16 and 240, and 128 throughout a grey image. |

## Left out

- MatrixInverse.InverseCorrect: does not model rounding; all matrix and statistics results are over exact reals.
- MatrixRotation.RotateCorrect: the cosine and sine are parameters with squares adding up to one, and the axis is
  already normalised; `Vector3::normalized` and the trigonometric functions are not part of this model.
- `Matrix4::transform`, `translate`, `scale` and `perspective`: the first needs a vector library that is not part of
  this model, the others would add only easy members.
- Traversal.DagTraverse.Traverse: in which order the keys that a callback returns are visited is not stated, only that
  each is before the post-callback.
- ExportTargets.Export: targets are objects whose fields are values, so that the lists a shallow copy shares with its
  original are not told apart from equal ones; the script replaces such lists and never updates one in place.
  `has_all_includes` is a parameter, and JSON values other than lists and scalars are scalars. A `deps` that is not a
  list counts as malformed.
- ExportTargets.RewriteDeps: names that differ only in case may come in either order, and lower-casing is that of ASCII.
- CodeGeneration.Workspace.Run: what a script reports as its inputs and outputs does not change during a run, the
  generators come in the order of their names, and running, formatting and hashing are parameters.
- CodeGeneration.RunsConverge: hash files are distinct, no hash file is left over, generators and formatter write
  outputs only and no two generators the same, the files nobody writes are there, and formatting treats each output by
  itself and changes nothing the second time.
- StepInfo.GetStepInfo: `int()` is a parameter, and stripping knows the ASCII spaces only. Fetching the log and its
  errors are not modelled.
- Sheets.Spreadsheet.UpdateHeaders: starts from steps that have info; for one whose info is None the script raises. The
  sheet names of `format_sheet_name` and the requests to the service are not modelled.
- Formula.FormulaDetectsDuplicates: which contents a sheet takes as equal is a parameter.
- ShaderUtils.CompileProgramInternal: the callback before linking may record errors but creates and deletes nothing;
  info logs are not modelled.
- `CompileComputeProgram`, `CompileShaderFromFile` and the callers that only pass arguments on.
- EglWindow.EGLWindow.InitializeDisplay: the attribute list of the display, except for the extension that one of its
  attributes needs; the surface attributes are left out likewise. `eglQueryString` always returns a string.
- EglWindow.EGLWindow.RunAndDelete: one window and the handles it obtains; a context that `createContext` hands to its
  caller is the caller's. A handle is given back by the call that names it, so that what terminating a display frees
  with it is not counted, nor that a surface deleted while current lives on. EGL may hand out again the display that is
  held, but no other that is live. Surfaces and contexts are asked for, and made current, only with a display.
- Sphere.SphereGeometry.Create: the angles are a table of sines and cosines, and sizes are unbounded.
- Registry.RegistryXML.AddExtensionCommands: the XML tree is a list of extensions and a function from features to
  commands. Classification tests substrings as the script does.
- PerfStats.PermutationInvariant: the square root is a parameter; a negative truncation is not modelled.
- ParamTypes.RecoveredIff: base names that contain Const or Pointer themselves are excluded, here and in the results of
  `EntryPointTypes`. A C type is base words with a const for each level; no other qualifier, array or function type.
- Nv12.Downsample: sizes are positive and even, and the pixel data is complete; the padding of bitmap rows is ignored by
  the script as well.
- `strip_suffix`, the loaders, the symbol and enum generators, credentials, command lines and logging: text in and out,
  with nothing to prove beyond their listing.
