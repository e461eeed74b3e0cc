/** Lexical path cleaning, as filepath.Clean does it, and the paths of exported volumes. */
module Paths {
  import opened Text
  import ServiceNames
  import ServiceTable

  function Push(stack: seq<string>, rooted: bool, element: string): seq<string> {
    if element == "" || element == "." then stack
    else if element != ".." then stack + [element]
    else if stack != [] && stack[|stack| - 1] != ".." then stack[..|stack| - 1]
    else if rooted then stack
    else stack + [element]
  }

  function Resolve(elements: seq<string>, rooted: bool): seq<string> {
    if elements == [] then []
    else Push(Resolve(elements[..|elements| - 1], rooted), rooted, elements[|elements| - 1])
  }

  function Clean(path: string): string {
    var rooted := path != "" && path[0] == '/';
    var cleaned := (if rooted then "/" else "") + Join(Resolve(Split(path, '/'), rooted), '/');
    if cleaned == "" then "." else cleaned
  }

  lemma CleanElements(p: string, more: string)
    requires p != ""
    ensures Clean(p + "/" + more) ==
            var rooted := p[0] == '/';
            var cleaned := (if rooted then "/" else "") + Join(Resolve(Split(p, '/') + Split(more, '/'), rooted), '/');
            if cleaned == "" then "." else cleaned
  {
    assert p + "/" + more == p + ['/'] + more;
    SplitConcat(p, more, '/');
  }

  /** Cleaning drops empty elements and those that name the directory itself. */
  lemma CleanDropsDots(p: string)
    requires p != ""
    ensures Clean(p + "/" + "") == Clean(p) == Clean(p + "/" + ".")
  {
    var elements := Split(p, '/');
    CleanElements(p, "");
    CleanElements(p, ".");
    SplitAbsent("", '/');
    SplitAbsent(".", '/');
    assert (elements + [""])[..|elements|] == elements && (elements + ["."])[..|elements|] == elements;
  }

  lemma SplitChild(name: string)
    requires '/' !in name
    ensures Split(name + "/" + "..", '/') == [name, ".."]
  {
    assert name + "/" + ".." == name + ['/'] + "..";
    SplitFirst(name, "..", '/');
    SplitAbsent("..", '/');
  }

  lemma ResolveChild(elements: seq<string>, name: string, rooted: bool)
    requires name != "" && name != "." && name != ".."
    ensures Resolve(elements + [name, ".."], rooted) == Resolve(elements, rooted)
  {
    var one, two := elements + [name], elements + [name, ".."];
    assert two[..|two| - 1] == one && one[..|one| - 1] == elements;
    assert two[|two| - 1] == ".." && one[|one| - 1] == name;
    var stack := Resolve(elements, rooted);
    assert Resolve(one, rooted) == stack + [name];
    assert (stack + [name])[..|stack|] == stack;
  }

  /** It takes an element and its parent together. */
  lemma CleanTakesParents(p: string, name: string)
    requires p != "" && name != "" && name != "." && name != ".." && '/' !in name
    ensures Clean(p + "/" + (name + "/" + "..")) == Clean(p)
  {
    assert Split(name + "/" + "..", '/') == [name, ".."] by { SplitChild(name); }
    CleanElements(p, name + "/" + "..");
    ResolveChild(Split(p, '/'), name, p[0] == '/');
  }

  /** The root is its own parent, and the first parents of a relative path stay. */
  lemma ParentsAtTheTop()
    ensures Resolve([".."], true) == [] && Resolve([".."], false) == [".."] && Resolve(["..", ".."], false) == ["..", ".."]
  {
    assert [".."][..0] == [] && ["..", ".."][..1] == [".."];
  }

  /** The Service name that a dump reads off an exported directory. */
  function ServiceOf(root: string, directory: string): string {
    ReplaceFirst(ReplaceFirst(directory, root, ""), "/", "")
  }

  // --- Directories of exported volumes ---

  ghost predicate CleanRoot(root: string) {
    |root| > 1 && root[0] == '/' && Clean(root) == root && ServiceTable.GoodRoot(root)
  }

  ghost predicate PlainName(name: string) {
    ServiceTable.PathElement(name) && name != "." && name != ".."
  }

  /** The names of shared volumes are plain. */
  lemma SharedVolumeNameIsPlain(volumeId: string)
    requires ServiceNames.HasNFSPrefix(volumeId)
    ensures PlainName(ServiceNames.VolumeIDToServiceName(volumeId))
  {
    var low := ServiceNames.Lower(volumeId);
    assert low[0] == 'n' && low[0] in low;
    ServiceNames.NameShape(volumeId);
    ServiceNames.NameIsPathElement(volumeId);
  }

  lemma SplitDirectory(root: string, name: string)
    requires '/' !in name
    ensures Split(ServiceTable.ServiceDirectory(root, name), '/') == Split(root, '/') + [name, ""]
  {
    var tail := name + "/";
    assert ServiceTable.ServiceDirectory(root, name) == root + ['/'] + tail by {
      Associative(root + "/", name, "/");
    }
    assert Split(tail, '/') == [name, ""] by { SplitElement(name); }
    assert Split(root + ['/'] + tail, '/') == Split(root, '/') + Split(tail, '/') by { SplitConcat(root, tail, '/'); }
  }

  lemma SplitElement(name: string)
    requires '/' !in name
    ensures Split(name + "/", '/') == [name, ""]
  {
    assert name + "/" == name + ['/'] + "";
    SplitFirst(name, "", '/');
    SplitAbsent("", '/');
  }

  lemma ResolveDirectory(elements: seq<string>, name: string)
    requires PlainName(name)
    ensures Resolve(elements + [name, ""], true) == Resolve(elements, true) + [name]
  {
    var one, two := elements + [name], elements + [name, ""];
    assert two[..|two| - 1] == one && one[..|one| - 1] == elements;
    assert two[|two| - 1] == "" && one[|one| - 1] == name;
    assert Push(Resolve(one, true), true, "") == Resolve(one, true);
    assert Push(Resolve(elements, true), true, name) == Resolve(elements, true) + [name];
  }

  /** Cleaning the directory of an export line gives the Service's path. */
  lemma CleanDirectory(root: string, name: string)
    requires CleanRoot(root) && PlainName(name)
    ensures Clean(ServiceTable.ServiceDirectory(root, name)) == ServiceTable.ServicePath(root, name)
  {
    var elements := Split(root, '/');
    var stack := Resolve(elements, true);
    SplitDirectory(root, name);
    ResolveDirectory(elements, name);
    assert "/" + Join(stack, '/') == root;
    assert stack != [];
    JoinAppend(stack, name, '/');
    assert ServiceTable.ServiceDirectory(root, name)[0] == '/';
    assert "/" + (Join(stack, '/') + ['/'] + name) == ServiceTable.ServicePath(root, name);
  }

  lemma ServiceOfPath(root: string, name: string)
    requires root != ""
    ensures ServiceOf(root, ServiceTable.ServicePath(root, name)) == name
  {
    var path := ServiceTable.ServicePath(root, name);
    assert root <= path;
    assert path[|root|..] == "/" + name;
    assert ReplaceFirst(path, root, "") == "/" + name;
    assert "/" <= "/" + name;
    assert ("/" + name)[1..] == name;
  }
}
