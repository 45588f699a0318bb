/** The request handling of `XSLForms.Resources.WebResources` that works on
    values: cleaning the request parameters, picking the in-page update
    parameters, checking the configured stylesheet lists and naming the
    in-page resource from the request path. */
module WebResources {
  import opened Wrappers
  import opened Strings
  import opened Dicts

  /** The exceptions these operations can raise. */
  datatype Raised = KeyError | IndexError | ValueError(culprit: string)

  // ---------------------------------------------------------------------------
  // clean_parameters
  // ---------------------------------------------------------------------------

  predicate EndsWithNul(v: string)
  {
    |v| > 0 && v[|v| - 1] == '\0'
  }

  /** One value with one stray trailing NUL taken off, if it has one. */
  function StripNul(v: string): string
  {
    if EndsWithNul(v) then v[..|v| - 1] else v
  }

  function CleanValues(values: seq<string>): seq<string>
  {
    seq(|values|, i requires 0 <= i < |values| => StripNul(values[i]))
  }

  lemma CleanValuesStep(values: seq<string>, i: nat)
    requires i < |values|
    ensures CleanValues(values[..i + 1]) == CleanValues(values[..i]) + [StripNul(values[i])]
  {
  }

  /** The parameters as `clean_parameters` leaves them. */
  function Cleaned(parameters: map<string, seq<string>>): (r: map<string, seq<string>>)
  {
    map name | name in parameters :: CleanValues(parameters[name])
  }

  /** The parameters part way through `clean_parameters`: those in `waiting`
      are still as they came. */
  function PartlyCleaned(parameters: map<string, seq<string>>, waiting: set<string>): map<string, seq<string>>
  {
    map name | name in parameters :: if name in waiting then parameters[name] else CleanValues(parameters[name])
  }

  lemma PartlyCleanedStep(parameters: map<string, seq<string>>, waiting: set<string>, name: string)
    requires name in waiting && name in parameters
    ensures PartlyCleaned(parameters, waiting)[name := CleanValues(parameters[name])]
            == PartlyCleaned(parameters, waiting - {name})
  {
  }

  /** `clean_parameters`: every value list of the shared dictionary is
      replaced by its cleaned copy. */
  method CleanParameters(parameters: Dict<seq<string>>)
    modifies parameters
    ensures parameters.entries == Cleaned(old(parameters.entries))
  {
    ghost var original := parameters.entries;
    var names := parameters.entries.Keys;
    while names != {}
      invariant names <= original.Keys
      invariant parameters.entries == PartlyCleaned(original, names)
      decreases names
    {
      var name :| name in names;
      var values := parameters.entries[name];
      var newValues := [];
      for i := 0 to |values|
        invariant newValues == CleanValues(values[..i])
        invariant parameters.entries == PartlyCleaned(original, names)
      {
        var value := values[i];
        CleanValuesStep(values, i);
        if |value| > 0 && value[|value| - 1] == '\0' {
          newValues := newValues + [value[..|value| - 1]];
        } else {
          newValues := newValues + [value];
        }
      }
      assert values[..|values|] == values;
      PartlyCleanedStep(original, names, name);
      parameters.entries := parameters.entries[name := newValues];
      names := names - {name};
    }
    assert PartlyCleaned(original, {}) == Cleaned(original);
  }

  /** Cleaning keeps every parameter and the number and order of its values;
      each value loses exactly one trailing NUL if it ends with one, and is
      otherwise unchanged. */
  lemma CleanedShape(parameters: map<string, seq<string>>)
    ensures Cleaned(parameters).Keys == parameters.Keys
    ensures forall name :: name in parameters ==>
              |Cleaned(parameters)[name]| == |parameters[name]| &&
              forall i :: 0 <= i < |parameters[name]| ==>
                var v := parameters[name][i];
                var w := Cleaned(parameters)[name][i];
                if EndsWithNul(v) then w + ['\0'] == v else w == v
  {
    forall name | name in parameters
      ensures |Cleaned(parameters)[name]| == |parameters[name]|
      ensures forall i :: 0 <= i < |parameters[name]| ==>
                var v := parameters[name][i];
                var w := Cleaned(parameters)[name][i];
                if EndsWithNul(v) then w + ['\0'] == v else w == v
    {
      var vs := parameters[name];
      forall i | 0 <= i < |vs|
        ensures var w := Cleaned(parameters)[name][i];
                if EndsWithNul(vs[i]) then w + ['\0'] == vs[i] else w == vs[i]
      {
        if EndsWithNul(vs[i]) {
          assert vs[i][..|vs[i]| - 1] + ['\0'] == vs[i];
        }
      }
    }
  }

  /** Cleaning undoes the stray NUL a browser appends to a value. */
  lemma StripNulAppended(v: string)
    ensures StripNul(v + ['\0']) == v
  {
    assert (v + ['\0'])[..|v|] == v;
  }

  /** Cleaning a second time changes nothing exactly when the value did not
      end with two NULs: only one is taken off per call. */
  lemma StripNulTwice(v: string)
    ensures StripNul(StripNul(v)) == StripNul(v) <==> !(|v| >= 2 && v[|v| - 2..] == "\0\0")
  {
    if |v| >= 2 && v[|v| - 2..] == "\0\0" {
      assert v[|v| - 2] == '\0' && v[|v| - 1] == '\0';
      assert EndsWithNul(StripNul(v));
      assert |StripNul(StripNul(v))| < |StripNul(v)|;
    } else if EndsWithNul(v) {
      if |v| >= 2 {
        assert v[|v| - 2..] == [v[|v| - 2], v[|v| - 1]];
        assert v[|v| - 2] != '\0';
      }
      assert !EndsWithNul(StripNul(v));
    }
  }

  // ---------------------------------------------------------------------------
  // prepare_parameters
  // ---------------------------------------------------------------------------

  const ElementPathKey := "element-path"

  /** `prepare_parameters`: the stylesheet parameters for an in-page update,
      which carry the first `element-path` value of the request when it is
      not empty. A missing parameter reads as `[""]`; a present parameter
      without values has no first value to read. */
  function PrepareParameters(parameters: map<string, seq<string>>): (r: Result<map<string, string>, Raised>)
    ensures r.Err? <==> ElementPathKey in parameters && parameters[ElementPathKey] == []
    ensures r.Err? ==> r.error == IndexError
    ensures r.Ok? ==> r.value.Keys <= {ElementPathKey}
    ensures r.Ok? ==>
              (ElementPathKey in r.value <==>
                 ElementPathKey in parameters && parameters[ElementPathKey][0] != "")
    ensures r.Ok? && ElementPathKey in r.value ==> r.value[ElementPathKey] == parameters[ElementPathKey][0]
  {
    var values := if ElementPathKey in parameters then parameters[ElementPathKey] else [""];
    if values == [] then Err(IndexError)
    else if values[0] != "" then Ok(map[ElementPathKey := values[0]])
    else Ok(map[])
  }

  // ---------------------------------------------------------------------------
  // prepare_transform
  // ---------------------------------------------------------------------------

  /** What `transform_resources` holds for an identifier: the intended list of
      stylesheet file names, or by mistake a single string. */
  datatype Filenames = Names(names: seq<string>) | Bare(name: string)

  /** `os.path.join(directory, filename)` on POSIX paths. */
  function JoinPath(directory: string, filename: string): (r: string)
    ensures |filename| > 0 && filename[0] == '/' ==> r == filename
    ensures |r| >= |filename| && r[|r| - |filename|..] == filename
    ensures !(|filename| > 0 && filename[0] == '/') ==> |r| >= |directory| && r[..|directory|] == directory
  {
    if |filename| > 0 && filename[0] == '/' then filename
    else if directory == "" || directory[|directory| - 1] == '/' then directory + filename
    else directory + "/" + filename
  }

  /** The paths `prepare_transform` returns, without the final `abspath`
    normalisation, or the exception it raises. */
  function TransformPaths(resources: map<string, Filenames>, directory: string, id: string): (r: Result<seq<string>, Raised>)
    ensures r.Err? <==> id !in resources || resources[id].Bare?
    ensures id !in resources ==> r == Err(KeyError)
    ensures r.Ok? ==> |r.value| == |resources[id].names| &&
                      forall i :: 0 <= i < |r.value| ==>
                        var f := resources[id].names[i];
                        |r.value[i]| >= |f| && r.value[i][|r.value[i]| - |f|..] == f
  {
    if id !in resources then Err(KeyError)
    else match resources[id]
      case Bare(name) => Err(ValueError(name))
      case Names(names) => Ok(seq(|names|, i requires 0 <= i < |names| => JoinPath(directory, names[i])))
  }

  /** `prepare_transform`, without the final `abspath` normalisation. */
  method PrepareTransform(resources: map<string, Filenames>, directory: string, id: string)
    returns (r: Result<seq<string>, Raised>)
    ensures r == TransformPaths(resources, directory, id)
    ensures r.Err? <==> id !in resources || resources[id].Bare?
    ensures r.Ok? ==> |r.value| == |resources[id].names| &&
                      forall i :: 0 <= i < |r.value| ==>
                        var f := resources[id].names[i];
                        r.value[i][|r.value[i]| - |f|..] == f
  {
    if id !in resources {
      return Err(KeyError);
    }
    var filenames := resources[id];
    if filenames.Bare? {
      return Err(ValueError(filenames.name));
    }
    var paths := [];
    for i := 0 to |filenames.names|
      invariant |paths| == i
      invariant forall j :: 0 <= j < i ==> paths[j] == JoinPath(directory, filenames.names[j])
    {
      paths := paths + [JoinPath(directory, filenames.names[i])];
    }
    assert paths == seq(|filenames.names|, i requires 0 <= i < |filenames.names| => JoinPath(directory, filenames.names[i]));
    return Ok(paths);
  }

  // ---------------------------------------------------------------------------
  // get_in_page_resource
  // ---------------------------------------------------------------------------

  /** `path_info.split("/")[-1]`: the name of the in-page resource. */
  function InPageResource(pathInfo: string): (r: string)
    ensures '/' !in r && |r| <= |pathInfo|
  {
    var pieces := Split(pathInfo, '/');
    SplitPiecesFree(pathInfo, '/');
    LastPieceFits(pathInfo, '/');
    pieces[|pieces| - 1]
  }

  /** The resource name is the text after the last `/` of the path, or the
      whole path when it has none. */
  lemma InPageResourceIsLastSegment(pathInfo: string)
    ensures var r := InPageResource(pathInfo);
            '/' !in r && |r| <= |pathInfo| && pathInfo[|pathInfo| - |r|..] == r &&
            (|r| < |pathInfo| ==> pathInfo[|pathInfo| - |r| - 1] == '/')
  {
    var pieces := Split(pathInfo, '/');
    var r := pieces[|pieces| - 1];
    SplitPiecesFree(pathInfo, '/');
    JoinSplit(pathInfo, '/');
    if |pieces| == 1 {
      assert pathInfo == r;
    } else {
      JoinLast(pieces, '/');
      var front := Join(pieces[..|pieces| - 1], '/');
      assert pathInfo == front + ['/'] + r;
      assert pathInfo[|pathInfo| - |r|..] == r;
      assert pathInfo[|pathInfo| - |r| - 1] == '/';
    }
  }

  /** A resource name appended to any path is read back. */
  lemma InPageResourceOfPath(prefix: string, name: string)
    requires '/' !in name
    ensures InPageResource(prefix + "/" + name) == name
  {
    var p := prefix + "/" + name;
    var r := InPageResource(p);
    InPageResourceIsLastSegment(p);
    assert p[|p| - |name|..] == name;
    assert p[|p| - |name| - 1] == '/';
    assert forall k :: |p| - |name| <= k < |p| ==> p[k] == name[k - (|p| - |name|)];
  }
}
