/** The path post-processing options of ex13_post-processing.cpp: a data
    directory and an input and an output file, whose value() and is_valid()
    overrides read the data directory through the registry.  The registry is
    given as its entries (see RegistrySpec); values are strings. */
module PostProcessing {
  import opened Wrappers
  import opened RegistrySpec

  /** std::string::substr(0, count): the first count characters, or the
      whole string when it is shorter. */
  function Prefix(s: string, count: nat): (r: string)
    ensures |r| == if count <= |s| then count else |s|
    ensures r <= s
  {
    if count <= |s| then s[..count] else s
  }

  /** detail::is_with_absolute_path(pathName). */
  predicate IsWithAbsolutePath(pathName: string)
  {
    Prefix(pathName, 1) == "/" || Prefix(pathName, 2) == "~/" || Prefix(pathName, 2) == "./"
  }

  /** A path counts as carrying its own path exactly when it starts with
      "/", "~/" or "./". */
  lemma AbsolutePathIff(pathName: string)
    ensures IsWithAbsolutePath(pathName) <==> ("/" <= pathName || "~/" <= pathName || "./" <= pathName)
  {
  }

  /** The three option types, and the tuple IOOptions that main declares. */
  const DataDir: OptionType<string> := OptionType(0, "data-dir", None)
  const InFile: OptionType<string> := OptionType(1, "in-file", Some("p2sim_m2_p00.root"))
  const OutFile: OptionType<string> := OptionType(2, "out-file", Some("hists.root"))
  const IOOptions: Declarable<string> := Tuple([Single(DataDir), Single(InFile), Single(OutFile)])

  /** OptDataDir::value(): the raw value with a '/' appended unless it ends
      in one.  The source reads the last character unchecked, so the raw
      value must not be empty. */
  function DataDirValue(raw: string): (r: string)
    requires |raw| > 0
    ensures |r| > 0 && r[|r| - 1] == '/'
    ensures raw <= r && |r| <= |raw| + 1
    ensures r == raw <==> raw[|raw| - 1] == '/'
  {
    if raw[|raw| - 1] == '/' then raw else raw + "/"
  }

  /** Applying the slash rule to its own result changes nothing. */
  lemma DataDirIdempotent(raw: string)
    requires |raw| > 0
    ensures DataDirValue(DataDirValue(raw)) == DataDirValue(raw)
  {
  }

  /** Every stored data-dir value is non-empty (so OptDataDir::value() is
      defined on it). */
  ghost predicate DataDirUsable(es: seq<Entry<string>>)
  {
    forall i :: 0 <= i < |es| && es[i].tag.id == DataDir.id && es[i].raw.Some? ==> |es[i].raw.value| > 0
  }

  /** get<OptDataDir>() as the file options call it through their registry:
      the registry's get ladder, then OptDataDir::value(). */
  function GetDataDir(es: seq<Entry<string>>): (r: Result<string, Error>)
    requires DataDirUsable(es)
    ensures r.Ok? ==> |r.value| > 0 && r.value[|r.value| - 1] == '/'
    ensures r.Ok? ==>
      exists i :: 0 <= i < |es| && es[i].tag.id == DataDir.id && es[i].raw.Some? && r.value == DataDirValue(es[i].raw.value)
    ensures r.Err? <==> Lookup(es, DataDir).Err?
    ensures r.Err? ==> r.error == Lookup(es, DataDir).error
  {
    match Lookup(es, DataDir)
    case Err(e) => Err(e)
    case Ok(raw) => Ok(DataDirValue(raw))
  }

  /** With one entry per type, a set data-dir entry fixes get<OptDataDir>()
      as OptDataDir::value() of its raw value. */
  lemma GetDataDirOfSet(es: seq<Entry<string>>, i: nat)
    requires UniqueTypes(es) && DataDirUsable(es)
    requires i < |es| && es[i].tag.id == DataDir.id && es[i].raw.Some?
    ensures GetDataDir(es) == Ok(DataDirValue(es[i].raw.value))
  {
    GetLadder(es, DataDir);
  }

  /** OptInFile::value() and OptOutFile::value() (the two bodies are the
      same): an absolute raw value is returned as it is, any other is
      prefixed with get<OptDataDir>(), whose exceptions propagate.  The data
      directory is consulted only for a relative raw value. */
  function FileValue(raw: string, es: seq<Entry<string>>): (r: Result<string, Error>)
    requires !IsWithAbsolutePath(raw) ==> DataDirUsable(es)
    ensures IsWithAbsolutePath(raw) ==> r == Ok(raw)
    ensures !IsWithAbsolutePath(raw) ==> (r.Err? <==> GetDataDir(es).Err?)
    ensures r.Ok? ==> |raw| <= |r.value| && r.value[|r.value| - |raw|..] == raw
  {
    if IsWithAbsolutePath(raw) then Ok(raw)
    else
      match GetDataDir(es)
      case Err(e) => Err(e)
      case Ok(dir) => Ok(dir + raw)
  }

  /** What a file option's value() yields, by the state of data-dir. */
  lemma FileValueCases(raw: string, es: seq<Entry<string>>)
    requires UniqueTypes(es) && DataDirUsable(es)
    ensures IsWithAbsolutePath(raw) ==> FileValue(raw, es) == Ok(raw)
    ensures !IsWithAbsolutePath(raw) && !Declared(es, DataDir) ==>
      FileValue(raw, es) == Err(LogicError(NotDeclaredMessage(DataDir.name)))
    ensures forall i :: 0 <= i < |es| && es[i].tag.id == DataDir.id && !IsWithAbsolutePath(raw) ==>
      FileValue(raw, es) ==
        match es[i].raw
        case None => Err(InvalidArgument(NotSetMessage(DataDir.name)))
        case Some(dir) => Ok(DataDirValue(dir) + raw)
  {
    GetLadder(es, DataDir);
  }

  /** A relative file name ends up directly below the data directory: the
      result is the directory, one '/', and the file name. */
  lemma FileValueJoinsPath(raw: string, es: seq<Entry<string>>, i: nat, dir: string)
    requires UniqueTypes(es) && DataDirUsable(es)
    requires i < |es| && es[i].tag.id == DataDir.id && es[i].raw == Some(dir)
    requires !IsWithAbsolutePath(raw)
    ensures FileValue(raw, es).Ok?
    ensures var path := FileValue(raw, es).value;
      exists k :: 0 < k <= |path| && path[..k - 1] <= dir && path[k - 1] == '/' && path[k..] == raw &&
        (dir[|dir| - 1] == '/' ==> path[..k] == dir) && (dir[|dir| - 1] != '/' ==> path[..k - 1] == dir)
  {
    FileValueCases(raw, es);
    assert |dir| > 0;
    var d := DataDirValue(dir);
    var path := d + raw;
    assert path[..|d|] == d && path[|d|..] == raw;
    if dir[|dir| - 1] != '/' {
      assert d == dir + "/";
      assert path[..|d| - 1] == dir;
    }
  }

  const AbsolutePathMessageTail := " Must not contain absolute path if " + DataDir.name + " is specified"

  /** OptInFile::is_valid and OptOutFile::is_valid (the same body, apart
      from the option name in the message): refuse an absolute raw value
      when data-dir is set, writing the reason into the message.  The
      registry's is_set<OptDataDir>() is evaluated only for an absolute raw
      value, and there it dereferences find<OptDataDir>() unchecked. */
  function FileIsValid(optionName: string, raw: string, es: seq<Entry<string>>, errorMessage: string): (r: (bool, string))
    requires IsWithAbsolutePath(raw) ==> Declared(es, DataDir)
    ensures !r.0 <==> IsWithAbsolutePath(raw) && Lookup(es, DataDir).Ok?
    ensures r.0 ==> r.1 == errorMessage
    ensures !r.0 ==> r.1 == optionName + AbsolutePathMessageTail
  {
    if IsWithAbsolutePath(raw) && Lookup(es, DataDir).Ok? then
      (false, optionName + " Must not contain absolute path if " + DataDir.name + " is specified")
    else
      (true, errorMessage)
  }

  /** check_valid() on a file option: throws exactly when its raw value is
      absolute and a data-dir value is set, with the option's own message. */
  lemma FileCheckValid(optionName: string, raw: string, es: seq<Entry<string>>)
    requires UniqueTypes(es)
    requires IsWithAbsolutePath(raw) ==> Declared(es, DataDir)
    ensures var v := FileIsValid(optionName, raw, es, "");
      CheckValid(v.0, v.1) ==
        if IsWithAbsolutePath(raw) && exists i :: 0 <= i < |es| && es[i].tag.id == DataDir.id && es[i].raw.Some?
        then Fail(InvalidArgument(optionName + AbsolutePathMessageTail))
        else Pass
  {
  }

  /** The registry main builds: IOOptions declared into an empty registry,
      nothing set yet. */
  const IODeclared: seq<Entry<string>> := [Entry(DataDir, None), Entry(InFile, None), Entry(OutFile, None)]

  /** Declaring IOOptions into an empty registry stores the three options,
      unset, in tuple order. */
  lemma DeclareIOOptions()
    ensures DeclareGroup([], IOOptions) == Ok(IODeclared)
  {
    DeclareGroupIsSequential([], IOOptions);
    FlattenIOOptions();
    DeclareIOList();
  }

  /** IOOptions lists data-dir, in-file and out-file in that order. */
  lemma FlattenIOOptions()
    ensures Flatten(IOOptions) == [DataDir, InFile, OutFile]
  {
    assert IOOptions.elems[0] == Single(DataDir) && IOOptions.elems[1] == Single(InFile) && IOOptions.elems[2] == Single(OutFile);
    assert FlattenFrom(IOOptions, 3) == [];
    assert FlattenFrom(IOOptions, 2) == [OutFile];
    assert FlattenFrom(IOOptions, 1) == [InFile, OutFile];
    assert FlattenFrom(IOOptions, 0) == [DataDir, InFile, OutFile];
  }

  /** The three types declared one after another into an empty registry. */
  lemma DeclareIOList()
    ensures DeclareSeq([], [DataDir, InFile, OutFile]) == Ok(IODeclared)
  {
    var e0 := [Entry(DataDir, None)];
    var e1 := e0 + [Entry(InFile, None)];
    DeclareIOSteps(e0, e1);
    assert DeclareSeq(e1, [OutFile]) == Ok(IODeclared) by {
      assert [OutFile][1..] == [];
    }
    assert DeclareSeq(e0, [InFile, OutFile]) == Ok(IODeclared) by {
      assert [InFile, OutFile][1..] == [OutFile];
    }
    assert [DataDir, InFile, OutFile][1..] == [InFile, OutFile];
  }

  /** The three single declarations of IOOptions, each into the registry the
      previous one left. */
  lemma DeclareIOSteps(e0: seq<Entry<string>>, e1: seq<Entry<string>>)
    requires e0 == [Entry(DataDir, None)] && e1 == e0 + [Entry(InFile, None)]
    ensures Declare([], DataDir) == Ok(e0)
    ensures Declare(e0, InFile) == Ok(e1)
    ensures Declare(e1, OutFile) == Ok(IODeclared)
  {
    assert e1 + [Entry(OutFile, None)] == IODeclared;
    assert FirstCollision(e0[1..], InFile) == None;
    assert FirstCollision(e1[2..], OutFile) == None;
    assert FirstCollision(e1[1..], OutFile) == None;
    var empty: seq<Entry<string>> := [];
    assert FirstCollision(empty, DataDir) == None;
    assert IndexOf(empty, DataDir) == None;
    assert empty + [Entry(DataDir, None)] == e0;
  }

  /** The variables map boost builds from the command line
      "--data-dir=~/data/abc --in-file=trololo.txt": the two given values,
      and out-file's default "hists.root", which Option::declare registered
      with boost. */
  const ParsedRelativeMap: map<string, string> :=
    map["data-dir" := "~/data/abc", "in-file" := "trololo.txt", "out-file" := "hists.root"]

  /** The registry after pushing that map. */
  const ParsedRelative: seq<Entry<string>> :=
    [Entry(DataDir, Some("~/data/abc")), Entry(InFile, Some("trololo.txt")), Entry(OutFile, Some("hists.root"))]

  /** Pushing that map into the declared registry sets all three options. */
  lemma PushParsedRelative()
    ensures Push(IODeclared, ParsedRelativeMap) == ParsedRelative
  {
    var es := Push(IODeclared, ParsedRelativeMap);
    assert es[0] == ParsedRelative[0] && es[1] == ParsedRelative[1] && es[2] == ParsedRelative[2];
  }

  /** The data directory of that registry, with its '/' appended. */
  lemma ParsedDataDir()
    ensures DataDirUsable(ParsedRelative)
    ensures GetDataDir(ParsedRelative) == Ok("~/data/abc/")
  {
    assert Lookup(ParsedRelative, DataDir) == Ok("~/data/abc") by {
      assert ParsedRelative[0].tag == DataDir && ParsedRelative[1].tag == InFile && ParsedRelative[2].tag == OutFile;
      assert Declared(ParsedRelative, DataDir);
      assert IndexOf(ParsedRelative, DataDir) == Some(0);
    }
    assert DataDirValue("~/data/abc") == "~/data/abc/";
  }

  /** Declare IOOptions and push the map parsed from data-dir "~/data/abc"
      and in-file "trololo.txt": the in-file value is
      "~/data/abc/trololo.txt". */
  lemma CrossOptionExample()
    ensures Push(IODeclared, ParsedRelativeMap) == ParsedRelative
    ensures FileValue("trololo.txt", ParsedRelative) == Ok("~/data/abc/trololo.txt")
  {
    PushParsedRelative();
    assert Prefix("trololo.txt", 1) == "t" && Prefix("trololo.txt", 2) == "tr";
    assert DataDirUsable(ParsedRelative);
    ParsedDataDir();
    assert "~/data/abc/" + "trololo.txt" == "~/data/abc/trololo.txt";
  }

  /** The variables map for "--data-dir=~/data/abc --in-file=./trololo.txt",
      out-file again at its default. */
  const AbsoluteInFileMap: map<string, string> :=
    map["data-dir" := "~/data/abc", "in-file" := "./trololo.txt", "out-file" := "hists.root"]

  /** With the same data-dir, an in-file given as "./trololo.txt" is stored
      as it is and its value passes through unchanged. */
  lemma AbsoluteInFileExample()
    ensures Lookup(Push(IODeclared, AbsoluteInFileMap), InFile)
      == Ok("./trololo.txt")
    ensures FileValue("./trololo.txt", Push(IODeclared, AbsoluteInFileMap))
      == Ok("./trololo.txt")
  {
    var es := Push(IODeclared, AbsoluteInFileMap);
    assert es[1] == Entry(InFile, Some("./trololo.txt"));
    PushThenGet(IODeclared, AbsoluteInFileMap, InFile, 1);
    assert Prefix("./trololo.txt", 2) == "./";
  }
}
