/** Which paths the program may open, and where they lead. Strings are C strings: the end stands for the NUL. */
module PathPolicy {
  import opened Words
  import opened Buffers
  import opened Segments

  const DATA_PATH := "ux0:/data/CAUSTIC3/"

  datatype Errno = EINVAL | EACCES | EROFS | ENAMETOOLONG
  datatype Mapping = Mapped(path: string) | Refused(errno: Errno)

  predicate NotParent(segment: string) {
    segment != ".."
  }

  /** No segment is "..". */
  predicate NoParent(path: string) {
    Every(Split(path, '/'), NotParent)
  }

  predicate IsDataPath(path: string) {
    DATA_PATH <= path || path == DATA_PATH[..|DATA_PATH| - 1]
  }

  /** Where a path leads, apart from the size of the buffer. */
  function Target(input: string, write: bool): Mapping
    requires input != ""
  {
    if !NoParent(input) then Refused(EACCES)
    else if "/storage/emulated/0/" <= input then Mapped(DATA_PATH + input[20..])
    else if "/sdcard/" <= input then Mapped(DATA_PATH + input[8..])
    else if "app0:" <= input then if write then Refused(EROFS) else Mapped(input)
    else if "ux0:" <= input then if IsDataPath(input) then Mapped(input) else Refused(EACCES)
    else if ':' in input || input[0] == '/' then Refused(EACCES)
    else Mapped(input)
  }

  /** caustic_map_path, for a present input and output. */
  function Map(input: string, size: nat, write: bool): Mapping {
    if input == "" || size == 0 then Refused(EINVAL)
    else match Target(input, write)
      case Refused(errno) => Refused(errno)
      case Mapped(path) => if |path| < size then Mapped(path) else Refused(ENAMETOOLONG)
  }

  // What the outputs can be

  /** The outputs there are: data paths, read-only application paths, and plain relative names; none goes up. */
  predicate Allowed(path: string, write: bool) {
    && path != "" && NoParent(path)
    && (IsDataPath(path) || ("app0:" <= path && !write) || (':' !in path && path[0] != '/'))
  }

  lemma SplitLead(path: string, head: string, rest: string)
    requires '/' !in head && path == head + ['/'] + rest
    ensures Split(path, '/') == [head] + Split(rest, '/')
  {
    assert path[..|head|] == head && path[|head| + 1..] == rest;
    SplitFirst(path, '/', |head|);
  }

  lemma {:induction false} DataSplit(suffix: string)
    ensures Split(DATA_PATH + suffix, '/') == ["ux0:", "data", "CAUSTIC3"] + Split(suffix, '/')
  {
    SplitLead(DATA_PATH + suffix, "ux0:", "data/CAUSTIC3/" + suffix);
    SplitLead("data/CAUSTIC3/" + suffix, "data", "CAUSTIC3/" + suffix);
    SplitLead("CAUSTIC3/" + suffix, "CAUSTIC3", suffix);
  }

  lemma SdcardSplit(suffix: string)
    ensures Split("/sdcard/" + suffix, '/') == ["", "sdcard"] + Split(suffix, '/')
  {
    SplitLead("/sdcard/" + suffix, "", "sdcard/" + suffix);
    SplitLead("sdcard/" + suffix, "sdcard", suffix);
  }

  lemma {:induction false} StorageSplit(suffix: string)
    ensures Split("/storage/emulated/0/" + suffix, '/') == ["", "storage", "emulated", "0"] + Split(suffix, '/')
  {
    var rest := "emulated/0/" + suffix;
    EmulatedSplit(suffix);
    assert "/storage/emulated/0/" + suffix == "/storage/" + rest;
    SplitLead("/storage/" + rest, "", "storage/" + rest);
    StorageRest(rest);
  }

  lemma {:induction false} StorageRest(rest: string)
    ensures Split("storage/" + rest, '/') == ["storage"] + Split(rest, '/')
  {
    SplitLead("storage/" + rest, "storage", rest);
  }

  lemma {:induction false} EmulatedSplit(suffix: string)
    ensures Split("emulated/0/" + suffix, '/') == ["emulated", "0"] + Split(suffix, '/')
  {
    var rest := "0/" + suffix;
    assert "emulated/0/" + suffix == "emulated/" + rest;
    EmulatedRest(rest);
    ZeroRest(suffix);
  }

  lemma {:induction false} EmulatedRest(rest: string)
    ensures Split("emulated/" + rest, '/') == ["emulated"] + Split(rest, '/')
  {
    SplitLead("emulated/" + rest, "emulated", rest);
  }

  lemma {:induction false} ZeroRest(rest: string)
    ensures Split("0/" + rest, '/') == ["0"] + Split(rest, '/')
  {
    SplitLead("0/" + rest, "0", rest);
  }

  lemma {:induction false} EveryAppended(first: seq<string>, second: seq<string>)
    requires forall i | 0 <= i < |first| :: NotParent(first[i])
    ensures Every(first + second, NotParent) <==> Every(second, NotParent)
  {
    if first == [] {
      assert first + second == second;
    } else {
      EveryAppended(first[1..], second);
      assert (first + second)[1..] == first[1..] + second;
    }
  }

  /** A suffix moved under the data root goes up exactly when it did where it was. */
  lemma JoinedNoParent(suffix: string)
    ensures NoParent(DATA_PATH + suffix) <==> NoParent(suffix)
    ensures NoParent("/sdcard/" + suffix) <==> NoParent(suffix)
    ensures NoParent("/storage/emulated/0/" + suffix) <==> NoParent(suffix)
  {
    DataSplit(suffix);
    SdcardSplit(suffix);
    StorageSplit(suffix);
    EveryAppended(["ux0:", "data", "CAUSTIC3"], Split(suffix, '/'));
    EveryAppended(["", "sdcard"], Split(suffix, '/'));
    EveryAppended(["", "storage", "emulated", "0"], Split(suffix, '/'));
  }

  /** A path with a ".." segment is refused, whatever else it is. */
  lemma ParentIsRefused(input: string, size: nat, write: bool, i: nat)
    requires i < |Split(input, '/')| && Split(input, '/')[i] == ".."
    ensures Map(input, size, write) == Refused(if size == 0 then EINVAL else EACCES)
  {
    assert Split("", '/') == [""];
    EveryIsForall(Split(input, '/'), NotParent);
    assert !NotParent(Split(input, '/')[i]);
  }

  /** Every output is allowed, and mapping it again with the same access and size gives it back. */
  lemma OutputIsAllowed(input: string, size: nat, write: bool)
    requires Map(input, size, write).Mapped?
    ensures Allowed(Map(input, size, write).path, write) && |Map(input, size, write).path| < size
  {
    var path := Map(input, size, write).path;
    if "/storage/emulated/0/" <= input {
      assert input == "/storage/emulated/0/" + input[20..];
      JoinedNoParent(input[20..]);
    } else if "/sdcard/" <= input {
      assert input == "/sdcard/" + input[8..];
      JoinedNoParent(input[8..]);
    }
  }

  lemma PrefixHead(prefix: string, path: string)
    requires prefix != "" && prefix <= path
    ensures path[0] == prefix[0]
  {
  }

  lemma DataPathStart(path: string)
    requires IsDataPath(path)
    ensures "ux0:" <= path && path[0] == 'u'
  {
  }

  /** The outputs are exactly the allowed paths that fit, and each is its own image. */
  lemma AllowedIsFixpoint(path: string, size: nat, write: bool)
    ensures Map(path, size, write) == Mapped(path) <==> Allowed(path, write) && |path| < size
  {
    if Map(path, size, write) == Mapped(path) {
      OutputIsAllowed(path, size, write);
    }
    if Allowed(path, write) && |path| < size {
      NotAbsolute(path, write);
      assert Target(path, write) == Mapped(path);
    }
  }

  lemma NotAbsolute(path: string, write: bool)
    requires Allowed(path, write)
    ensures path[0] != '/'
    ensures "app0:" <= path ==> !write
    ensures "ux0:" <= path ==> IsDataPath(path)
    ensures !("app0:" <= path) && !("ux0:" <= path) ==> ':' !in path
  {
    if IsDataPath(path) {
      DataPathStart(path);
    }
    if "app0:" <= path {
      PrefixHead("app0:", path);
      assert path[4] == ':';
    }
    if "ux0:" <= path {
      PrefixHead("ux0:", path);
      assert path[3] == ':';
    }
  }

  /** Mapping an output again changes nothing. */
  lemma MapIsIdempotent(input: string, size: nat, write: bool)
    requires Map(input, size, write).Mapped?
    ensures Map(Map(input, size, write).path, size, write) == Map(input, size, write)
  {
    OutputIsAllowed(input, size, write);
    AllowedIsFixpoint(Map(input, size, write).path, size, write);
  }

  /** What stands behind either Android mount is kept behind the data root. */
  lemma {:induction false} MountsMove(suffix: string, size: nat, write: bool)
    requires size > 0 && forall i | 0 <= i < |Split(suffix, '/')| :: Split(suffix, '/')[i] != ".."
    ensures var moved := "ux0:/data/CAUSTIC3/" + suffix;
      var outcome := if |moved| < size then Mapped(moved) else Refused(ENAMETOOLONG);
      Map("/storage/emulated/0/" + suffix, size, write) == outcome && Map("/sdcard/" + suffix, size, write) == outcome
  {
    EveryIsForall(Split(suffix, '/'), NotParent);
    JoinedNoParent(suffix);
    var emulated, card := "/storage/emulated/0/" + suffix, "/sdcard/" + suffix;
    assert emulated[20..] == suffix && card[8..] == suffix && card[2] == 'd';
  }

  /** The data root and what is below it, application files to be read, and relative names without a mount. */
  predicate Stays(path: string, write: bool)
    requires path != ""
  {
    || path == "ux0:/data/CAUSTIC3" || "ux0:/data/CAUSTIC3/" <= path || ("app0:" <= path && !write)
    || (':' !in path && path[0] != '/')
  }

  lemma {:induction false} AllowedIff(path: string, write: bool)
    requires path != ""
    ensures Allowed(path, write) <==> NoParent(path) && Stays(path, write)
  {
    assert DATA_PATH[..|DATA_PATH| - 1] == "ux0:/data/CAUSTIC3";
  }

  /**
   Any other path without parent segments stays as it is if it may and fits; application
   files are read-only, and all else is out of bounds.
   */
  lemma {:induction false} OthersStay(input: string, size: nat, write: bool)
    requires input != "" && size > 0 && !("/storage/emulated/0/" <= input) && !("/sdcard/" <= input)
    requires forall i | 0 <= i < |Split(input, '/')| :: Split(input, '/')[i] != ".."
    ensures Map(input, size, write) ==
      if Stays(input, write) then if |input| < size then Mapped(input) else Refused(ENAMETOOLONG)
      else Refused(if "app0:" <= input then EROFS else EACCES)
  {
    EveryIsForall(Split(input, '/'), NotParent);
    AllowedIff(input, write);
    if Stays(input, write) {
      NotAbsolute(input, write);
    }
  }

  /** No path and no room are invalid arguments. */
  lemma NothingIsInvalid(input: string, size: nat, write: bool)
    ensures Map(input, size, write) == Refused(EINVAL) <==> input == "" || size == 0
  {
  }

  // Where a path resolves

  /** Where a path leads from a directory. */
  function Resolve(path: string, at: seq<string>): seq<string> {
    Follow(Split(path, '/'), at, '.')
  }

  const ROOT := ["ux0:", "data", "CAUSTIC3"]

  /** An output resolves at or below the data root; an application path or a relative name, at or below where it starts. */
  lemma OutputIsContained(input: string, size: nat, write: bool, current: seq<string>)
    requires Map(input, size, write).Mapped?
    ensures var path := Map(input, size, write).path;
      && current <= Resolve(path, current)
      && (IsDataPath(path) ==> ROOT <= Resolve(path, []))
      && (!IsDataPath(path) ==> ("app0:" <= path && !write) || (':' !in path && path[0] != '/'))
  {
    var path := Map(input, size, write).path;
    OutputIsAllowed(input, size, write);
    EveryIsForall(Split(path, '/'), NotParent);
    FollowStaysBelow(Split(path, '/'), current, '.');
    if IsDataPath(path) {
      DataResolves(path);
    }
  }

  lemma DataResolves(path: string)
    requires IsDataPath(path) && NoParent(path)
    ensures ROOT <= Resolve(path, [])
  {
    if DATA_PATH <= path {
      var suffix := path[|DATA_PATH|..];
      assert path == DATA_PATH + suffix;
      DataSplit(suffix);
      JoinedNoParent(suffix);
      FollowRoot(Split(suffix, '/'));
    } else {
      RootSplit(path);
      FollowRoot([]);
    }
  }

  lemma RootSplit(path: string)
    requires path == DATA_PATH[..|DATA_PATH| - 1]
    ensures Split(path, '/') == ROOT + []
  {
    ThreeSegments(path, "ux0:", "data", "CAUSTIC3");
  }

  lemma ThreeSegments(path: string, a: string, b: string, c: string)
    requires '/' !in a && '/' !in b && '/' !in c && path == a + ['/'] + b + ['/'] + c
    ensures Split(path, '/') == [a, b, c]
  {
    var tail := b + ['/'] + c;
    assert path == a + ['/'] + tail;
    SplitLead(path, a, tail);
    SplitLead(tail, b, c);
    assert c[..|c|] == c;
    SplitFirst(c, '/', |c|);
  }

  lemma {:induction false} FollowRoot(rest: seq<string>)
    requires Every(rest, NotParent)
    ensures ROOT <= Follow(ROOT + rest, [], '.')
  {
    FollowAppend(ROOT, rest, [], '.');
    FollowPlain(ROOT, [], '.');
    assert [] + ROOT == ROOT;
    EveryIsForall(rest, NotParent);
    FollowStaysBelow(rest, ROOT, '.');
  }

  // The code

  /** has_parent_segment */
  method HasParentSegment(path: string) returns (found: bool)
    ensures found == !NoParent(path)
  {
    var segment, cursor := 0, 0;
    assert path[0..] == path;
    while true
      invariant 0 <= segment <= cursor <= |path| && '/' !in path[segment..cursor]
      invariant NoParent(path) == NoParent(path[segment..])
      decreases |path| - cursor
    {
      if cursor == |path| || path[cursor] == '/' {
        EverySegment(path, '/', NotParent, segment, cursor);
        assert cursor == segment + 2 ==> path[segment..cursor] == [path[segment], path[segment + 1]];
        if cursor - segment == 2 && path[segment] == '.' && path[segment + 1] == '.' {
          return true;
        }
        assert NotParent(path[segment..cursor]);
        if cursor == |path| {
          break;
        }
        segment := cursor + 1;
      } else {
        SegmentGrows(path, '/', segment, cursor);
      }
      cursor := cursor + 1;
    }
    return false;
  }

  /** snprintf(output, size, "%s", value) */
  method Snprintf(output: array<char>, size: nat, value: string) returns (written: nat)
    requires 0 < size <= output.Length
    modifies output
    ensures written == |value|
    ensures output[..] == Stored(value, size) + old(output[..])[|Stored(value, size)|..]
  {
    var i := 0;
    while i < |value| && i + 1 < size
      invariant 0 <= i <= |value| && i < size
      invariant forall k | 0 <= k < i :: output[k] == value[k]
      invariant forall k | i <= k < output.Length :: output[k] == old(output[k])
    {
      output[i] := value[i];
      i := i + 1;
    }
    output[i] := '\0';
    assert Stored(value, size) == value[..i] + ['\0'];
    return |value|;
  }

  /** copy_checked, and join_data_root on the joined path */
  method CopyChecked(output: array<char>, size: nat, value: string) returns (r: Mapping)
    requires 0 < size <= output.Length
    modifies output
    ensures r == if |value| < size then Mapped(value) else Refused(ENAMETOOLONG)
    ensures output[..] == Stored(value, size) + old(output[..])[|Stored(value, size)|..]
  {
    var written := Snprintf(output, size, value);
    return if written >= size then Refused(ENAMETOOLONG) else Mapped(value);
  }

  /**
   caustic_map_path. A mapped path is in the buffer with its NUL; a name that is too long
   leaves what fits of it; any other refusal leaves the buffer alone.
   */
  method MapPath(input: Option<string>, output: array?<char>, size: nat, write: bool) returns (r: Mapping)
    requires output != null ==> size <= output.Length
    modifies output
    ensures r == if input == None || output == null then Refused(EINVAL) else Map(input.value, size, write)
    ensures r.Mapped? ==> output[..|r.path| + 1] == r.path + ['\0']
    ensures r == Refused(ENAMETOOLONG) ==>
      Target(input.value, write).Mapped? && output[..size] == Stored(Target(input.value, write).path, size)
    ensures r.Refused? && r.errno != ENAMETOOLONG && output != null ==> output[..] == old(output[..])
  {
    if input == None || input.value == "" || output == null || size == 0 {
      return Refused(EINVAL);
    }
    var path := input.value;
    var parent := HasParentSegment(path);
    if parent {
      return Refused(EACCES);
    }
    if "/storage/emulated/0/" <= path {
      r := CopyChecked(output, size, DATA_PATH + path[20..]);
    } else if "/sdcard/" <= path {
      r := CopyChecked(output, size, DATA_PATH + path[8..]);
    } else if "app0:" <= path {
      if write {
        return Refused(EROFS);
      }
      r := CopyChecked(output, size, path);
    } else if "ux0:" <= path {
      if !IsDataPath(path) {
        return Refused(EACCES);
      }
      r := CopyChecked(output, size, path);
    } else if ':' in path || path[0] == '/' {
      return Refused(EACCES);
    } else {
      r := CopyChecked(output, size, path);
    }
  }
}
