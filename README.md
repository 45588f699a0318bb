# XSLForms field paths, in Dafny

XSLForms turns the flat `(field, value)` pairs of a submitted web form into XML
documents. It also turns nodes of those documents back into field names for the
stylesheets that write the form. The two directions share one small path
grammar:

- `/zoo$1/cage$2/name` is the `name` attribute of the second `cage` element
  inside the first `zoo` element of the `zoo` document.
- `/pkg$1/cats$1/cat$$value` is one new `cat` element per value, each carrying
  a `value` attribute.
- `_action_add=/zoo$1/cage$2` is a selector: it names the node it reaches.

This project models that protocol and the smaller helpers built on the same
trees. Documents are values:

- a `Node` is a document, an element (name, attribute map, ordered children) or
  a text node;
- a node is held by its address, the child indices leading to it from the
  document node.

The modules, one per concern:

- `Constants`: the four delimiters of the grammar: `/`, `$`, `$$`, `=`.
- `Strings`: `split`, `join`, `int()`, `str()`, marker search and
  first-occurrence de-duplication on `seq<char>`.
- `Dom`: the tree, address lookup, and in-place replacement, appending and
  insertion by address. It also has the element-only ordinals behind
  `xpath("*")` and `count(preceding-sibling::*)`.
- `Dicts`: a dictionary object that several operations mutate in place.
- `Fields`: the `FieldProcessor`. It builds one document per model name from
  the fields, padding gaps with `placeholder` elements, and resolves selector
  fields in create or lookup mode. The processor's loops are methods proved
  equal to functions that state the result.
- `FieldProperties`: what the processor promises, proved about those functions.
- `Output`: the inverse direction, used by stylesheets:
  - `path_to_node`, and the `other_*`, `child_*`, `selector_name`,
    `element_path`, `get_field_name` and `choice` helpers.
- `RoundTrip`: the two directions agree.
  - The path written for an element is read back by the selector resolver as
    that same element.
  - A field of element steps, once built, names an element whose written path
    is the field.
- `Calendar`: the month matrix, the previous and next month helpers, and the
  `month`/`week`/`day` document they write.
- `XmlTable`: the insertion-ordered dictionary and the row and column table
  converter.
- `Utils`: `add_elements` and `remove_elements`.
  - A removed node leaves its parent's child list. It survives as a tree of its
    own in a forest, and held positions are re-expressed after each removal.
- `WebResources`: request-parameter NUL stripping, the in-page update
  parameters, the stylesheet-list check and the in-page resource name.

All source paths below are under `venv/lib/python3.8/site-packages/`, written in
full.

## Model

| member | source | states |
|---|---|---|
| Fields.ModelNameAndComponents | venv/lib/python3.8/site-packages/XSLForms/Fields.py:292-318 | when a model name is found, the first component is a `name$index` step whose name is the model name, so the walk starts with the model's own step |
| FieldProperties.ModelNameOfPath | venv/lib/python3.8/site-packages/XSLForms/Fields.py:292-318 | a path `/model$n/...` yields the model name and every component after the leading empty piece |
| FieldProperties.ClassifyAttribute | venv/lib/python3.8/site-packages/XSLForms/Fields.py:110-113 | a component without `$` is an attribute leaf |
| FieldProperties.ClassifyElementStep | venv/lib/python3.8/site-packages/XSLForms/Fields.py:110-133 | `name$n` is an element step with that name and position text |
| FieldProperties.ClassifyMultivalue | venv/lib/python3.8/site-packages/XSLForms/Fields.py:110-146 | `name$$attr` is a multivalue leaf |
| Fields.Classify | venv/lib/python3.8/site-packages/XSLForms/Fields.py:110-146 | each shape put back together is the component: an attribute leaf is the whole component, and it is one exactly when there is no `$`; `name$n` and `name$$attr` rejoin their `$`-free pieces |
| Fields.ClassifyPieces | venv/lib/python3.8/site-packages/XSLForms/Fields.py:110-146 | the pieces of `component.split("$")` are free of `$` and, joined with `$`, give the component back |
| Fields.ClassifyRejoins | venv/lib/python3.8/site-packages/XSLForms/Fields.py:110-146 | `name$n` and `name$$attr` are their `$`-free pieces joined back with `$` and `$$` |
| Strings.ParseInt | venv/lib/python3.8/site-packages/XSLForms/Fields.py:133 | `int()` succeeds only on text holding a decimal digit |
| Strings.ParseSpacedSign | venv/lib/python3.8/site-packages/XSLForms/Fields.py:133 | `int()` takes whitespace around the number and between the sign and the digits, giving the signed value of the digits |
| Strings.TrimSpaces | venv/lib/python3.8/site-packages/XSLForms/Fields.py:133 | the whitespace around a signed number is stripped off exactly |
| Strings.SignThenDigits | venv/lib/python3.8/site-packages/XSLForms/Fields.py:133 | a sign, whitespace, then digits read as the signed value of the digits |
| Strings.ParseDigits | venv/lib/python3.8/site-packages/XSLForms/Fields.py:217 | plain decimal digits read as their value |
| Strings.ParseNegative | venv/lib/python3.8/site-packages/XSLForms/Fields.py:217 | a minus sign and decimal digits read as the negated value |
| Strings.ParseIntOfString | venv/lib/python3.8/site-packages/XSLForms/Fields.py:217 | `int(str(n)) == n` for every integer |
| Fields.FieldProcessor.constructor | venv/lib/python3.8/site-packages/XSLForms/Fields.py:68-81 | the processor keeps its `values_are_lists` setting |
| Fields.PlaceholdersCount | venv/lib/python3.8/site-packages/XSLForms/Fields.py:320-332 | n placeholders are n elements, each the `placeholder` element |
| Fields.PaddedSpec | venv/lib/python3.8/site-packages/XSLForms/Fields.py:320-332 | padding keeps the existing children in order, appends only placeholders, leaves at least index+1 child elements (exactly that many when it pads), and changes nothing when position `index` already exists |
| Fields.FieldProcessor.EnsureElements | venv/lib/python3.8/site-packages/XSLForms/Fields.py:320-332 | the `while` loop yields the padded child list |
| Fields.EnterAt | venv/lib/python3.8/site-packages/XSLForms/Fields.py:252-273 | entering keeps the kind and name of the container; an entered node is a child element of the container with the requested name |
| Fields.FieldProcessor.EnterElement | venv/lib/python3.8/site-packages/XSLForms/Fields.py:252-273 | the method (pad, then replace a placeholder or take the existing element) gives `EnterAt` |
| FieldProperties.EnterAtChildren | venv/lib/python3.8/site-packages/XSLForms/Fields.py:252-273 | entering only changes the container's children: padded to index+1 elements, and every child except the entered slot is the old child or a placeholder |
| FieldProperties.EnterAtSlot | venv/lib/python3.8/site-packages/XSLForms/Fields.py:258-273 | a conflict happens exactly when the element at `index` is neither a placeholder nor named `name`, and then leaves the document unchanged and reports the found name; otherwise the entered slot is element number `index`: an existing element of that name, or a new empty one replacing a placeholder or padding |
| Fields.FindAt | venv/lib/python3.8/site-packages/XSLForms/Fields.py:275-290 | a found address is a child element of the container with the requested name |
| FieldProperties.FindMatchesEnter | venv/lib/python3.8/site-packages/XSLForms/Fields.py:252-290 | lookup finds an element exactly when entering would reach an existing element without changing the document, and both give the same address |
| Fields.SetAttributeAt | venv/lib/python3.8/site-packages/XSLForms/Fields.py:125 | only the addressed element changes, and only in the one attribute |
| Fields.ValueElements | venv/lib/python3.8/site-packages/XSLForms/Fields.py:142-162 | one element per value |
| FieldProperties.ValueElementsSpec | venv/lib/python3.8/site-packages/XSLForms/Fields.py:142-162 | element k is a new `name` element whose only attribute is the k-th value without carriage returns |
| Fields.FieldProcessor.AppendValues | venv/lib/python3.8/site-packages/XSLForms/Fields.py:154-162 | the multivalue loop appends exactly the value elements under the current node |
| Fields.EnterStep | venv/lib/python3.8/site-packages/XSLForms/Fields.py:128-140 | an element step that goes on stands at an element, and the document stays a document |
| Fields.Step | venv/lib/python3.8/site-packages/XSLForms/Fields.py:109-162 | a walk that goes on stands at an element, and the document stays a document |
| Fields.Walk | venv/lib/python3.8/site-packages/XSLForms/Fields.py:109-162 | a walk that goes on stands at an element, and no components leave the state as it was |
| Fields.FieldProcessor.EnterComponent | venv/lib/python3.8/site-packages/XSLForms/Fields.py:128-140 | a `name$position` component raises `ValueError` on a bad position, stops below 1, and otherwise enters the element or raises `FieldsError`, as `EnterStep` says |
| Fields.FieldProcessor.ProcessComponent | venv/lib/python3.8/site-packages/XSLForms/Fields.py:110-162 | one pass of the component loop body gives one `Step` |
| Fields.FieldProcessor.Traverse | venv/lib/python3.8/site-packages/XSLForms/Fields.py:107-162 | the component loop, with its `break`s and errors, gives `Walk` |
| FieldProperties.WalkAppend | venv/lib/python3.8/site-packages/XSLForms/Fields.py:109-162 | walking `a + b` is walking `a`, then `b` |
| FieldProperties.UnrecognisedSkipped | venv/lib/python3.8/site-packages/XSLForms/Fields.py:110-162 | a component of no recognised shape is skipped and the walk goes on |
| FieldProperties.ElementStepIs | venv/lib/python3.8/site-packages/XSLForms/Fields.py:128-140 | a component that splits into two parts at `$` is handled as an element step at the current node |
| FieldProperties.EnterStepEnters | venv/lib/python3.8/site-packages/XSLForms/Fields.py:133-140 | a position that reads as n >= 1 enters at index n-1, or raises `FieldsError` with the name, the index and the name found |
| FieldProperties.NonPositiveStops | venv/lib/python3.8/site-packages/XSLForms/Fields.py:133-135 | a step whose position reads as 0 or less stops the walk with the document as it is |
| FieldProperties.NonPositiveIndexStops | venv/lib/python3.8/site-packages/XSLForms/Fields.py:133-135 | a position of 0 or less ends the field's walk, keeping what the earlier steps built |
| FieldProperties.ConflictRaisesFieldsError | venv/lib/python3.8/site-packages/XSLForms/Fields.py:136-140 | a step onto a slot held by a differently named real element raises `FieldsError` with the field, name, index and found name, leaving the document as it was |
| FieldProperties.EnterStepConflict | venv/lib/python3.8/site-packages/XSLForms/Fields.py:133-140 | a position reading as n >= 1, onto a slot held by an element of another name, fails with `FieldsError` naming the field, the name, n-1 and the name found, and the document unchanged |
| FieldProperties.EnterAtConflict | venv/lib/python3.8/site-packages/XSLForms/Fields.py:258-273 | entering a slot held by an element of another name leaves the document as it was and reports that name |
| FieldProperties.AttributeLeafEndsWalk | venv/lib/python3.8/site-packages/XSLForms/Fields.py:111-126 | an attribute leaf sets the first (list mode) or only value, without `\r`, on the current element and ends the walk; an empty list raises `IndexError` |
| FieldProperties.MultivalueAppends | venv/lib/python3.8/site-packages/XSLForms/Fields.py:142-162 | a `name$$attr` leaf appends one new element per value after the existing children, never reusing one, and the walk stays at the same node |
| Fields.BuildField | venv/lib/python3.8/site-packages/XSLForms/Fields.py:91-162 | every model name still maps to a document |
| FieldProperties.SkippedFields | venv/lib/python3.8/site-packages/XSLForms/Fields.py:93-98 | fields with `=`, without `/`, or whose first named component is not one `name$index` leave the documents unchanged |
| FieldProperties.OneDocumentPerModel | venv/lib/python3.8/site-packages/XSLForms/Fields.py:96-107 | a field adds its model's document if missing (a document whose only child is the model element) and otherwise walks the existing one; every other document stays |
| Fields.BuildDocuments | venv/lib/python3.8/site-packages/XSLForms/Fields.py:83-162 | every model name maps to a document |
| FieldProperties.DocumentsKept | venv/lib/python3.8/site-packages/XSLForms/Fields.py:83-162 | building never drops a document |
| Fields.FieldProcessor.AddField | venv/lib/python3.8/site-packages/XSLForms/Fields.py:91-162 | one field-loop iteration updates the shared dictionary as `BuildField` says |
| Fields.FieldProcessor.CompleteDocuments | venv/lib/python3.8/site-packages/XSLForms/Fields.py:83-162 | the shared dictionary ends as `BuildDocuments` says, with the exception that ended the loop |
| Fields.FieldProcessor.MakeDocuments | venv/lib/python3.8/site-packages/XSLForms/Fields.py:334-348 | the documents built into a new dictionary, or the exception raised |
| Fields.SelectStep | venv/lib/python3.8/site-packages/XSLForms/Fields.py:203-235 | a selection that goes on stands at an element |
| Fields.SelectWalk | venv/lib/python3.8/site-packages/XSLForms/Fields.py:203-235 | a selection that goes on stands at an element; no components change nothing |
| FieldProperties.SelectMultivalueSkipped | venv/lib/python3.8/site-packages/XSLForms/Fields.py:203-235 | a `name$$attr` component, or one of no known shape, is skipped by a selector walk |
| FieldProperties.SelectNonPositiveSelectsNode | venv/lib/python3.8/site-packages/XSLForms/Fields.py:217-240 | a position of 0 or less selects the node reached so far and ends the walk |
| Fields.FieldProcessor.Select | venv/lib/python3.8/site-packages/XSLForms/Fields.py:201-235 | the selector component loop gives `SelectWalk` |
| Fields.Resolve | venv/lib/python3.8/site-packages/XSLForms/Fields.py:176-235 | a resolved or failed selector refers to an existing model document |
| Fields.FieldProcessor.ResolveSelector | venv/lib/python3.8/site-packages/XSLForms/Fields.py:176-235 | the method gives `Resolve` |
| FieldProperties.SelectorPartsOf | venv/lib/python3.8/site-packages/XSLForms/Fields.py:178-187 | the selector name is the text before the first `=`, the path everything after it rejoined |
| FieldProperties.SelectorFields | venv/lib/python3.8/site-packages/XSLForms/Fields.py:178-187 | exactly the fields containing `=` are selectors |
| FieldProperties.MissingDocumentSkipped | venv/lib/python3.8/site-packages/XSLForms/Fields.py:193-196 | a selector whose model has no document is skipped |
| FieldProperties.LookupStepKeepsDocument | venv/lib/python3.8/site-packages/XSLForms/Fields.py:215-235 | a lookup step never changes the document and can only fail with `ValueError` |
| FieldProperties.LookupKeepsDocument | venv/lib/python3.8/site-packages/XSLForms/Fields.py:203-235 | a lookup walk never changes the document and can only fail with `ValueError` |
| FieldProperties.LookupResolveKeepsDocument | venv/lib/python3.8/site-packages/XSLForms/Fields.py:176-240 | lookup mode hands back the model's document unchanged |
| FieldProperties.MissingChildSelectsNothing | venv/lib/python3.8/site-packages/XSLForms/Fields.py:232-235 | in lookup mode a missing or mismatched child selects nothing |
| FieldProperties.SelectorEntryCreated | venv/lib/python3.8/site-packages/XSLForms/Fields.py:237-240 | a resolved selector always has an entry, extended by the node found if any; other outcomes leave the selectors alone |
| Fields.SelectAll | venv/lib/python3.8/site-packages/XSLForms/Fields.py:164-240 | every model name still maps to a document |
| FieldProperties.LookupNeverMutates | venv/lib/python3.8/site-packages/XSLForms/Fields.py:164-240 | in lookup mode no document changes |
| FieldProperties.SelectorsAccumulate | venv/lib/python3.8/site-packages/XSLForms/Fields.py:164-240 | every selector list only grows at its end, in field order |
| Fields.FieldProcessor.AddSelector | venv/lib/python3.8/site-packages/XSLForms/Fields.py:176-240 | one selector-loop iteration updates both shared dictionaries as `Record(Resolve(...))` says |
| Fields.FieldProcessor.RecordResolution | venv/lib/python3.8/site-packages/XSLForms/Fields.py:236-240 | the walked document is stored back and the node found, if any, is appended to the selector's list, created empty if missing, as `Record` says |
| Fields.FieldProcessor.CompleteSelectors | venv/lib/python3.8/site-packages/XSLForms/Fields.py:164-240 | both shared dictionaries end as `SelectAll` says |
| Fields.FieldProcessor.GetSelectors | venv/lib/python3.8/site-packages/XSLForms/Fields.py:350-361 | the selectors in a new dictionary, or the exception raised, which is the one the selector loop stopped at; the documents end as `SelectAll` says |
| Output.Ordinal | venv/lib/python3.8/site-packages/XSLForms/Output.py:95 | the position written for a node is at least 1 |
| Output.ElementSteps | venv/lib/python3.8/site-packages/XSLForms/Output.py:94-99 | there are no element steps exactly at the document node, and at most one per level |
| Output.StepUp | venv/lib/python3.8/site-packages/XSLForms/Output.py:94-99 | climbing one level puts the node's `/name$k` in front |
| Output.PathParts | venv/lib/python3.8/site-packages/XSLForms/Output.py:37-100 | the path is the element steps followed by the final component |
| Output.NodePath | venv/lib/python3.8/site-packages/XSLForms/Output.py:37-100 | the path is empty exactly when there is neither a last component nor an element to climb through, and otherwise starts with `/` |
| Output.RootedShape | venv/lib/python3.8/site-packages/XSLForms/Output.py:94-100 | a joined path is empty exactly when it has no components, and otherwise starts with `/` |
| Output.LastComponent | venv/lib/python3.8/site-packages/XSLForms/Output.py:64-90 | the last component (the attribute name, `name$$attribute`, the node's own name, or nothing) and the node the climb starts from, as `Tail` and `Origin` say |
| Output.PathToNode | venv/lib/python3.8/site-packages/XSLForms/Output.py:37-100 | the `insert(0, ...)` loop produces `NodePath` |
| Output.ElementStepsOfPath | venv/lib/python3.8/site-packages/XSLForms/Output.py:94-99 | every node from the document element down contributes its `/name$k`, outermost first |
| Output.AttributePath | venv/lib/python3.8/site-packages/XSLForms/Output.py:67-78 | an element reference names the handle's node (an attribute handle names its owner); with a name, `/name` is appended |
| Output.MultivalueAttributePath | venv/lib/python3.8/site-packages/XSLForms/Output.py:70-78 | a multivalue attribute reference folds the node into `/elem$$name` and starts the steps at its parent |
| Output.NamelessAttributePath | venv/lib/python3.8/site-packages/XSLForms/Output.py:81-84 | without a name the node's own tag is the last component and the steps start at its parent |
| Output.ListAttributePath | venv/lib/python3.8/site-packages/XSLForms/Output.py:86-91 | a multivalue element reference appends `/element$$attribute` after the node's own steps |
| Output.DistinctPaths | venv/lib/python3.8/site-packages/XSLForms/Output.py:179-185 | the comma-join of the node paths without repeats, in first-occurrence order |
| Output.OtherElements | venv/lib/python3.8/site-packages/XSLForms/Output.py:169-185 | the comma-joined distinct element paths of the nodes |
| Output.OtherListAttributes | venv/lib/python3.8/site-packages/XSLForms/Output.py:203-223 | the comma-joined distinct `$$` list-attribute paths of the nodes |
| Output.OtherAttributes | venv/lib/python3.8/site-packages/XSLForms/Output.py:225-246 | the comma-joined distinct attribute paths of the nodes |
| Output.DistinctPathsListed | venv/lib/python3.8/site-packages/XSLForms/Output.py:179-185 | read back, the list holds each path exactly once, in first-occurrence order |
| Output.ChildElement | venv/lib/python3.8/site-packages/XSLForms/Output.py:248-265 | each input path with `/name$pos` appended, comma-joined, `pos` being the position truncated toward zero |
| Output.Truncate | venv/lib/python3.8/site-packages/XSLForms/Output.py:265 | `int()` of a finite number: the integer between it and zero that is less than 1 away from it |
| Output.TruncateWhole | venv/lib/python3.8/site-packages/XSLForms/Output.py:265 | a whole position is written as itself, a half one as one of its two neighbours |
| Output.ChildAttribute | venv/lib/python3.8/site-packages/XSLForms/Output.py:267-283 | each input path with `/attr` appended, comma-joined |
| Output.ExtendedListed | venv/lib/python3.8/site-packages/XSLForms/Output.py:248-283 | read back, one output path per input path, same order, each the input plus the component |
| Output.SelectorNameAsWritten | venv/lib/python3.8/site-packages/XSLForms/Output.py:285-305 | the entries as the code collects them |
| Output.SelectorNameNeverSuppresses | venv/lib/python3.8/site-packages/XSLForms/Output.py:299-305 | as written, every path gets an entry, repeats included |
| Output.SelectorNameDuplicates | venv/lib/python3.8/site-packages/XSLForms/Output.py:299-305 | two nodes with the path `/a$1` give `add=/a$1` twice |
| Output.SelectorName | venv/lib/python3.8/site-packages/XSLForms/Output.py:285-305 | the entries with the duplicate test on the bare path |
| Output.SelectorEntriesDistinct | venv/lib/python3.8/site-packages/XSLForms/Output.py:285-305 | the corrected entries have no repeats, and a path is listed exactly when it belongs to a node, each as `field_name=path` |
| Output.GetFieldName | venv/lib/python3.8/site-packages/XSLForms/Output.py:524-525 | the longest prefix without `$$`: the name is cut exactly at its first `$$` |
| Output.ElementPath | venv/lib/python3.8/site-packages/XSLForms/Output.py:449-486 | the loop over the parts gives the `/`-join of their translations |
| Output.XPathStepOf | venv/lib/python3.8/site-packages/XSLForms/Output.py:478-485 | `name$n` becomes `*[position() = n]`; a part without `$` passes through |
| Output.ElementPathFirstName | venv/lib/python3.8/site-packages/XSLForms/Output.py:470 | only the first comma-separated name counts |
| Output.ElementPathOfElements | venv/lib/python3.8/site-packages/XSLForms/Output.py:449-486 | an element reference `/n1$i1/...` becomes `/*[position() = i1]/...` |
| Output.ElementPathOfMultivalue | venv/lib/python3.8/site-packages/XSLForms/Output.py:470-486 | a multivalue reference `/.../leaf$$attr` becomes the position tests followed by `/leaf` |
| Output.Choice | venv/lib/python3.8/site-packages/XSLForms/Output.py:408-422 | the true string when true; else the false string, or `""` when it is absent |
| Output.ChoiceSymmetric | venv/lib/python3.8/site-packages/XSLForms/Output.py:408-422 | an absent false string acts as `""`, and negating the value while swapping the strings changes nothing |
| RoundTrip.StepNameReadsBack | venv/lib/python3.8/site-packages/XSLForms/Output.py:95-98 | a written `name$k` component classifies as an element step, and its position reads back as k |
| RoundTrip.LookupStep | venv/lib/python3.8/site-packages/XSLForms/Fields.py:215-235 | looking up the component written for a node, from its parent, reaches that node |
| RoundTrip.LookupAlong | venv/lib/python3.8/site-packages/XSLForms/Fields.py:203-235 | looking up the written components reaches the node they were written for |
| RoundTrip.FirstComponent | venv/lib/python3.8/site-packages/XSLForms/Fields.py:312-314 | the first written component splits into the document element's name and its position |
| RoundTrip.PathComponents | venv/lib/python3.8/site-packages/XSLForms/Fields.py:292-318 | the written path of an element splits into its model name and exactly its written components |
| RoundTrip.SelectorFindsNode | venv/lib/python3.8/site-packages/XSLForms/Fields.py:176-240 | `name=` plus the written path of an element, looked up, selects that element of that document |
| RoundTrip.Canonical | venv/lib/python3.8/site-packages/XSLForms/Output.py:95 | positions written by `str` read back with `int` |
| RoundTrip.EnterAtReplaces | venv/lib/python3.8/site-packages/XSLForms/Fields.py:252-273 | entering replaces only the container node |
| RoundTrip.ElementStepsReplaced | venv/lib/python3.8/site-packages/XSLForms/Output.py:94-99 | replacing a node by one of the same name keeps the written components of it and its ancestors |
| RoundTrip.EnterKeepsSteps | venv/lib/python3.8/site-packages/XSLForms/Fields.py:252-273 | entering keeps the written components of the container |
| RoundTrip.EnteredOrdinal | venv/lib/python3.8/site-packages/XSLForms/Fields.py:252-273 | the element entered at index n-1 is the n-th element child of the container |
| RoundTrip.EnteredStep | venv/lib/python3.8/site-packages/XSLForms/Fields.py:252-273 | the element entered at index n-1 is written `name$n` after the container's components |
| RoundTrip.EnterCanonical | venv/lib/python3.8/site-packages/XSLForms/Fields.py:128-140 | a canonical step either raises `FieldsError` or reaches an element whose written components extend the container's by that step |
| RoundTrip.WalkCanonical | venv/lib/python3.8/site-packages/XSLForms/Fields.py:109-140 | a walk over canonical steps either raises `FieldsError` or reaches an element written exactly by those steps |
| RoundTrip.CanonicalField | venv/lib/python3.8/site-packages/XSLForms/Fields.py:292-318 | a path of canonical steps is processed, with its model name and components |
| RoundTrip.WalkCanonicalRoot | venv/lib/python3.8/site-packages/XSLForms/Fields.py:109-140 | from the document node, a walk over canonical steps raises `FieldsError` or stands at the element written exactly by those steps |
| RoundTrip.WalkedReadsBack | venv/lib/python3.8/site-packages/XSLForms/Output.py:94-99 | the element written by `steps` has the `path_to_node` path made of those steps |
| RoundTrip.BuiltFieldReadsBack | venv/lib/python3.8/site-packages/XSLForms/Fields.py:91-162 | building a field of canonical steps either raises `FieldsError` or leaves an element whose `path_to_node` path is the field |
| Calendar.Start | venv/lib/python3.8/site-packages/XSLTools/XMLCalendar.py:38 | the starting counter lies in [-5, 1] |
| Calendar.MonthCalendar | venv/lib/python3.8/site-packages/XSLTools/XMLCalendar.py:32-45 | the nested loops produce `MonthMatrix` |
| Calendar.MatrixCell | venv/lib/python3.8/site-packages/XSLTools/XMLCalendar.py:39-44 | each row has 7 cells; cell (r, i) is the counter's value after 7r+i steps, or 0 |
| Calendar.MonthCells | venv/lib/python3.8/site-packages/XSLTools/XMLCalendar.py:39-44 | every row has 7 cells; a cell is 0 or the day `start + 7r + i` within 1..ndays |
| Calendar.EveryDayAppears | venv/lib/python3.8/site-packages/XSLTools/XMLCalendar.py:38-44 | each day 1..ndays appears, at a position fixed by the start |
| Calendar.DaysOnceInOrder | venv/lib/python3.8/site-packages/XSLTools/XMLCalendar.py:38-44 | no day appears twice, and days increase in row-major order |
| Calendar.NoEmptyRow | venv/lib/python3.8/site-packages/XSLTools/XMLCalendar.py:38-44 | day 1 is in the first row and no row is all zeros |
| Calendar.PreviousMonth | venv/lib/python3.8/site-packages/XSLTools/XMLCalendar.py:49-53 | one month back, counting months as `12 * year + month`, and a real month stays within 1..12 |
| Calendar.NextMonth | venv/lib/python3.8/site-packages/XSLTools/XMLCalendar.py:55-59 | one month on, counting months as `12 * year + month`, and a real month stays within 1..12 |
| Calendar.MonthsInverse | venv/lib/python3.8/site-packages/XSLTools/XMLCalendar.py:49-59 | previous and next stay within 1..12, move by exactly one month, and undo each other |
| Calendar.FormatInt | venv/lib/python3.8/site-packages/XSLTools/XMLCalendar.py:92 | `%0wd` is at least w characters, starts with `-` exactly for a negative number, and is all digits otherwise |
| Calendar.DateText | venv/lib/python3.8/site-packages/XSLTools/XMLCalendar.py:92 | the `date` text is at least 8 characters, all digits for a date without negative parts |
| Calendar.FormatIntReadsBack | venv/lib/python3.8/site-packages/XSLTools/XMLCalendar.py:92 | `%0wd` of a number that fits is w characters that read back as the number |
| Calendar.DateReadsBack | venv/lib/python3.8/site-packages/XSLTools/XMLCalendar.py:92 | the `date` attribute is 8 digits from which year, month and day read back |
| Calendar.FormatIntPadded | venv/lib/python3.8/site-packages/XSLTools/XMLCalendar.py:92 | `%0wd` of a number no wider than w is its decimal digits after w minus their count zeros |
| Calendar.WriteWeek | venv/lib/python3.8/site-packages/XSLTools/XMLCalendar.py:87-93 | the inner loop builds the `week` element with one `day` per number |
| Calendar.MonthNavigation | venv/lib/python3.8/site-packages/XSLTools/XMLCalendar.py:76-83 | `number-previous` and `year-next` hold the month before and the year after |
| Calendar.DayElementShape | venv/lib/python3.8/site-packages/XSLTools/XMLCalendar.py:90-93 | a `day` has no children, and has `date` and `number` exactly when its number is not 0 |
| Calendar.WriteMonthToDocument | venv/lib/python3.8/site-packages/XSLTools/XMLCalendar.py:63-95 | the month element is appended as the root's last child, and nothing else changes |
| Calendar.MonthElementShape | venv/lib/python3.8/site-packages/XSLTools/XMLCalendar.py:76-93 | navigation attributes from the two helpers; one `week` per row with seven `day`s; only non-zero days carry `number` and `date` |
| XmlTable.KeysWithout | venv/lib/python3.8/site-packages/XSLTools/XMLTable.py:38-40 | exactly the other keys remain |
| XmlTable.SetConsistent | venv/lib/python3.8/site-packages/XSLTools/XMLTable.py:33-36 | assignment keeps keys and entries in step: a new key's item goes last; an existing key changes only its own item |
| XmlTable.KeysWithoutDistinct | venv/lib/python3.8/site-packages/XSLTools/XMLTable.py:38-40 | taking a key out keeps the list free of repeats |
| XmlTable.DeleteConsistent | venv/lib/python3.8/site-packages/XSLTools/XMLTable.py:38-40 | deleting by value keeps keys and entries in step, and the key is gone |
| XmlTable.OrderedDict.constructor | venv/lib/python3.8/site-packages/XSLTools/XMLTable.py:29-31 | a new dictionary is empty |
| XmlTable.OrderedDict.FromMapping | venv/lib/python3.8/site-packages/XSLTools/XMLTable.py:29-31 | a dictionary seeded from a mapping holds its entries, with the keys in the order the mapping lists them |
| XmlTable.OrderedDict.Set | venv/lib/python3.8/site-packages/XSLTools/XMLTable.py:33-36 | the entry is set, and the key is appended only if new |
| XmlTable.OrderedDict.Delete | venv/lib/python3.8/site-packages/XSLTools/XMLTable.py:38-40 | the corrected `__delitem__` removes the entry and the key, keeping the others in order |
| XmlTable.OrderedDict.Keys | venv/lib/python3.8/site-packages/XSLTools/XMLTable.py:42-43 | the keys in first-assignment order, each once, exactly the mapping's keys |
| XmlTable.OrderedDict.Items | venv/lib/python3.8/site-packages/XSLTools/XMLTable.py:45-49 | each key in order with its current value |
| XmlTable.OrderedDict.Values | venv/lib/python3.8/site-packages/XSLTools/XMLTable.py:51-52 | the current values in key order |
| XmlTable.KeysWithoutAt | venv/lib/python3.8/site-packages/XSLTools/XMLTable.py:38-40 | taking out a key found at i is cutting the list at i |
| XmlTable.DeleteAsWritten | venv/lib/python3.8/site-packages/XSLTools/XMLTable.py:38-40 | as written: the entry goes, a missing key raises `KeyError` |
| XmlTable.DeleteAsWrittenBreaksOrder | venv/lib/python3.8/site-packages/XSLTools/XMLTable.py:40 | after `d[5]="a"; d[0]="b"; del d[0]` the key list is `[0]` while the mapping holds only 5 |
| XmlTable.RowElementShape | venv/lib/python3.8/site-packages/XSLTools/XMLTable.py:84-102 | one child per column or item, in order: `column` elements for sequences; key-named elements, or `column` with a `name` attribute, for mappings; each holds its text |
| XmlTable.RowSlotPosition | venv/lib/python3.8/site-packages/XSLTools/XMLTable.py:76-80 | -1 appends; otherwise the row goes before the (index+1)-th child element and becomes element number `index` |
| XmlTable.NewRowElement | venv/lib/python3.8/site-packages/XSLTools/XMLTable.py:84-102 | the column loops build `RowElement` |
| XmlTable.Converter.constructor | venv/lib/python3.8/site-packages/XSLTools/XMLTable.py:55-69 | a new document with a `table` root element, and no last row |
| XmlTable.Converter.Over | venv/lib/python3.8/site-packages/XSLTools/XMLTable.py:55-69 | rows go under the given element, which lies in the given document or in a tree of its own |
| XmlTable.DocumentRoot | venv/lib/python3.8/site-packages/XSLTools/XMLTable.py:66-69 | the root is the document's first element child, and there is none (`IndexError`) exactly when the document has no element child |
| XmlTable.FirstElementChild | venv/lib/python3.8/site-packages/XSLTools/XMLTable.py:69 | `xpath("*")[0]` names an element child with no element before it |
| XmlTable.Converter.OverDocument | venv/lib/python3.8/site-packages/XSLTools/XMLTable.py:55-69 | given a document but no root, rows go under its first element, or the constructor raises `IndexError` |
| XmlTable.Converter.AddRow | venv/lib/python3.8/site-packages/XSLTools/XMLTable.py:75-102 | the row is inserted at its slot in the converter's tree and becomes the last row; a converter rooted outside its document leaves the document unchanged; an index with no element raises `IndexError` and leaves every tree unchanged and the empty row element detached |
| XmlTable.Converter.LastRow | venv/lib/python3.8/site-packages/XSLTools/XMLTable.py:104-108 | none before any row; otherwise a converter over the same document, with the same prefix, rooted at the last row; after an `IndexError` that row is the detached element, held as a tree of its own |
| Utils.FirstNamed | venv/lib/python3.8/site-packages/XSLForms/Utils.py:38-41 | the first child element with the name, or none at all |
| Utils.EnsureChild | venv/lib/python3.8/site-packages/XSLForms/Utils.py:37-44 | the address reached is a child element with the name |
| Utils.EnsureChildReusesFirst | venv/lib/python3.8/site-packages/XSLForms/Utils.py:37-44 | the first existing child of that name is reused unchanged; if there is none, a new one is appended last |
| Utils.EnsureChildKeeps | venv/lib/python3.8/site-packages/XSLForms/Utils.py:37-44 | every node keeps its address, kind and name; nodes off the container's path are unchanged |
| Utils.Nest | venv/lib/python3.8/site-packages/XSLForms/Utils.py:33-44 | the innermost container is an element below the position, one level per name |
| Utils.NestKeeps | venv/lib/python3.8/site-packages/XSLForms/Utils.py:33-44 | nesting keeps every node's address, kind and name; nodes off the nested path are unchanged |
| Utils.NestChain | venv/lib/python3.8/site-packages/XSLForms/Utils.py:33-44 | the nested containers are named `element_names[-1]` down to `element_names[1]` |
| Utils.AddAtShape | venv/lib/python3.8/site-packages/XSLForms/Utils.py:33-46 | the containers from `element_names[-1]` down to `element_names[1]` nest under the position, and exactly one new `element_names[0]` element is appended under the innermost |
| Utils.AddAtKeeps | venv/lib/python3.8/site-packages/XSLForms/Utils.py:35-46 | every node keeps its address, kind and name; nodes apart from the position are unchanged |
| Utils.AddAtKeepsAll | venv/lib/python3.8/site-packages/XSLForms/Utils.py:35-46 | every later position is still an element after one addition |
| Utils.AddEachKeeps | venv/lib/python3.8/site-packages/XSLForms/Utils.py:35-46 | every node keeps its address, kind and name |
| Utils.AddElements | venv/lib/python3.8/site-packages/XSLForms/Utils.py:22-46 | the loops give `AddElementsSpec`; no positions change nothing; it fails exactly when there are positions but no names |
| Utils.RemoveAt | venv/lib/python3.8/site-packages/XSLForms/Utils.py:56-57 | the parent's children lose exactly the removed one, the others in order |
| Utils.RemoveShifts | venv/lib/python3.8/site-packages/XSLForms/Utils.py:56-57 | nodes in later siblings move one index down and are unchanged |
| Utils.RemoveKeeps | venv/lib/python3.8/site-packages/XSLForms/Utils.py:56-57 | every node outside the removed one keeps its kind and name at its rebased address, and is unchanged unless it is an ancestor of the removed node |
| Utils.RemoveKeepsAbove | venv/lib/python3.8/site-packages/XSLForms/Utils.py:56-57 | the removed node's parent and its ancestors keep their kind and name |
| Utils.RemoveKeepsEarlierAt | venv/lib/python3.8/site-packages/XSLForms/Utils.py:56-57 | nodes in earlier siblings stay where they are, unchanged |
| Utils.RemoveKeepsAside | venv/lib/python3.8/site-packages/XSLForms/Utils.py:56-57 | nodes on other branches stay where they are, unchanged |
| Utils.RemoveDetaches | venv/lib/python3.8/site-packages/XSLForms/Utils.py:56-57 | nodes inside the removed one are found in it by the rest of their address |
| Utils.RebaseKeeps | venv/lib/python3.8/site-packages/XSLForms/Utils.py:54-57 | every held position still names the same kind and name of node after a removal, and the same node unless it is an ancestor of the removed one |
| Utils.RebaseAllValid | venv/lib/python3.8/site-packages/XSLForms/Utils.py:54-57 | all held positions stay valid after a removal |
| Utils.RemoveElements | venv/lib/python3.8/site-packages/XSLForms/Utils.py:48-57 | the loop gives `RemoveAll` over the held positions; no positions change nothing |
| Utils.RemoveAll | venv/lib/python3.8/site-packages/XSLForms/Utils.py:54-57 | each removal detaches one tree, and a node without a parent stops the loop with `AttributeError` before all are removed |
| Utils.Rebase | venv/lib/python3.8/site-packages/XSLForms/Utils.py:56-57 | a held node in another tree is untouched; otherwise it stays in its tree or moves into the detached one, never deeper |
| Utils.RemoveTwiceFails | venv/lib/python3.8/site-packages/XSLForms/Utils.py:54-57 | removing the same node twice raises `AttributeError` after the first removal took effect |
| Utils.RebaseLaterSibling | venv/lib/python3.8/site-packages/XSLForms/Utils.py:54-57 | a held later sibling of a removed node is held one index lower |
| Utils.RemoveEarlierSibling | venv/lib/python3.8/site-packages/XSLForms/Utils.py:56-57 | after removing child `i`, child `j > i` is found at `j - 1` and the others keep their order |
| Utils.RemoveAllPair | venv/lib/python3.8/site-packages/XSLForms/Utils.py:54-57 | two removals in a row act in turn, the second at its rebased position |
| Utils.RemoveTwoSiblings | venv/lib/python3.8/site-packages/XSLForms/Utils.py:54-57 | removing two siblings detaches exactly those two and keeps the others in order |
| WebResources.CleanParameters | venv/lib/python3.8/site-packages/XSLForms/Resources/WebResources.py:88-102 | the shared parameters become `Cleaned` of their old value |
| WebResources.CleanedShape | venv/lib/python3.8/site-packages/XSLForms/Resources/WebResources.py:95-102 | same keys, same number and order of values; exactly one trailing NUL goes from each value that has one, and the others are unchanged |
| WebResources.StripNulAppended | venv/lib/python3.8/site-packages/XSLForms/Resources/WebResources.py:97-99 | the NUL a browser appends is taken off again |
| WebResources.StripNulTwice | venv/lib/python3.8/site-packages/XSLForms/Resources/WebResources.py:97-101 | cleaning twice equals cleaning once exactly when the value does not end in two NULs |
| WebResources.PrepareParameters | venv/lib/python3.8/site-packages/XSLForms/Resources/WebResources.py:139-150 | `{"element-path": v}` exactly when the first value v is non-empty, `{}` otherwise, a missing key counting as `[""]`; a present key with no values raises `IndexError` |
| WebResources.JoinPath | venv/lib/python3.8/site-packages/XSLForms/Resources/WebResources.py:228 | an absolute file name is kept; otherwise the result starts with the directory; either way it ends with the file name |
| WebResources.TransformPaths | venv/lib/python3.8/site-packages/XSLForms/Resources/WebResources.py:210-229 | an unknown identifier is `KeyError`, a bare file name `ValueError`, and otherwise one path per file name, each ending in that name (before `abspath`) |
| WebResources.PrepareTransform | venv/lib/python3.8/site-packages/XSLForms/Resources/WebResources.py:210-229 | an unknown identifier raises `KeyError` and a bare string raises `ValueError`, and only those fail; otherwise one path per file name, in order, each ending with that name |
| WebResources.InPageResource | venv/lib/python3.8/site-packages/XSLForms/Resources/WebResources.py:238-241 | the resource name has no `/` and is no longer than the path |
| WebResources.InPageResourceIsLastSegment | venv/lib/python3.8/site-packages/XSLForms/Resources/WebResources.py:238-241 | the resource name has no `/`, ends the path, and follows its last `/` |
| WebResources.InPageResourceOfPath | venv/lib/python3.8/site-packages/XSLForms/Resources/WebResources.py:238-241 | a name without `/` after any path is read back |

## Left out

- Character encodings are not modelled. Field values and row texts are taken as already-decoded strings. Byte-to-Unicode decoding, `unicode()` and `path_encoding` are out.
- `Strings.ParseInt` reads only the ASCII digits 0-9 and C `isspace` whitespace. Field names reach `int()` as `unicode` text, and Python 2 `int()` on `unicode` also takes the other Unicode decimal digits (such as U+0661) and Unicode whitespace (such as U+00A0). Those are not modelled, so such a position gives `None` (a `ValueError`) here where the source reads a number.
- XML namespaces are not modelled. `Converter` keeps only the name prefix, and `ns` is dropped.
- `path_to_context`, the extension-function registration, `i18n`, `url_encode` and `xslforms_range` are out. They read XSLT state or build libxml node-sets through foreign calls.
- `send_output`, `get_result`, `respond` and the `prepare_output`, `prepare_fragment` and `prepare_initialiser` functions are out. They are HTTP and file plumbing.
- `Form` and `Form.get_selector` are out. `Form` is a dictionary holder, and `get_selector` calls `.items()` on a list, so it always fails.
- `get_calendar_for_month` is out. It only creates a document and calls `write_month_to_document`.
- `calendar.monthrange` is out. Its two results are the parameters `day1` (the weekday of the 1st) and `ndays`. The source's call (XMLCalendar.py:35) raises for a month outside 1..12; the model accepts any month, with any `day1` and `ndays`.
- `add_rows` is out. It is a plain loop of `add_row`.
- The `__main__` demonstrations are out. They do file and console I/O.
- `Calendar.WriteMonthToDocument` builds the `month` element with its weeks and then appends it. The source appends it first and then fills it. The document that results is the same, and nothing observes the order in between.
- `XmlTable.Converter.AddRow` inserts the row after its columns are built. The source inserts it first. The results are equal, and the failure case raises before any column is added.
- `XmlTable.Converter.LastRow` gives the new converter a copy of the document, and after an `IndexError` a copy of the detached row. In the source both are shared nodes, so a row added through the new converter later shows in the original converter's tree. Trees here are values, so that aliasing is not modelled.
- `Utils.AddElements` treats each name given to `xpath(name)` as a child element name test. General XPath expressions in those names are not modelled.
- `Utils.AddElements` requires positions that are elements of the tree. In the source they are live element nodes.
- `Utils.RemoveElements` requires positions that exist in the document. A removed node keeps its identity through `Position` and `Rebase`, the model's counterpart of a Python object reference.
- `WebResources.PrepareTransform` leaves out the final `os.path.abspath` normalisation of each path.
- `WebResources.TransformPaths` gives the paths before that `os.path.abspath` step, so a path that normalisation would change is not the one the source returns.
- `Output.PathToNode` requires argument combinations the code can handle (`ArgumentsFit`). A pair name with an attribute reference, or a missing pair with a multivalue element reference, raises `TypeError` in the source, and that is not modelled.
- `Fields.FieldProcessor.AddSelector` requires the two dictionaries to be distinct objects, as they are at every call site.
- `Fields.FieldProcessor.RecordResolution` requires the two dictionaries to be distinct objects, as they are at every call site.
- `Fields.FieldProcessor.CompleteSelectors` requires the two dictionaries to be distinct objects, as they are at every call site.
- `Fields.Walk` requires each field value to have the shape `values_are_lists` calls for (`Conforms`). Other values fail in ways that depend on Python's string and list indexing.
- `Fields.EnterAt` uses the element name `placeholder` for gaps. A field element that is itself named `placeholder` is therefore taken over like a gap, as in the source. `FieldProperties.FindMatchesEnter` requires a name other than `placeholder` for that reason.
- `Output.ChildElement` takes the XPath number as a `real`, so NaN and the infinities are out: there `int()` raises `ValueError` or `OverflowError`. Rounding of binary floating point is not modelled either.
- `XmlTable.OrderedDict.Keys` returns the key order as a value. The source returns its internal `_keys` list itself, so a caller that changes that list changes the dictionary's order; that aliasing is not modelled.
- `XmlTable.OrderedDict.FromMapping` takes the key order of the seeding mapping as a parameter. Python 2 lists a dict's keys in hash order, which is not modelled.
- `Output.ElementPath` translates a part with two or more `$` signs to its text before the first `$`, as `split('$')[0]` does.

## Findings

| source | as written | input that shows it | evidently intended | confidence | as-written member | corrected member |
|---|---|---|---|---|---|---|
| venv/lib/python3.8/site-packages/XSLForms/Output.py:299-305 | `selector_name` tests the bare path against a list whose entries all carry the `field_name=` prefix, so the test never matches | two nodes with the path `/a$1` and field name `add` give `add=/a$1,add=/a$1` | each distinct path listed once | not executed | Output.SelectorNameDuplicates | Output.SelectorEntriesDistinct |
| venv/lib/python3.8/site-packages/XSLTools/XMLTable.py:38-40 | `__delitem__` deletes `self._keys[key]`, indexing the key list by the key | `d[5]="a"; d[0]="b"; del d[0]` leaves the key list `[0]`, so `keys()` lists a deleted key and omits 5 | remove the key itself from the key list | not executed | XmlTable.DeleteAsWrittenBreaksOrder | XmlTable.DeleteConsistent |
