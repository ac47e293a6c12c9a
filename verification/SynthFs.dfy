/** The synthetic filesystem: a flat map from paths to nodes together with the child lists of its
    directories, its operations, and all interleavings of their lock-protected sections. */
module SynthFs {
  import opened ByteStrings

  /** An absolute path of normal components; the root is the empty sequence. */
  type Path = seq<string>

  /** The code behind a control file; what it does is not part of this model. */
  datatype Handler = Handler(id: nat)

  datatype NodeType =
    | Directory(children: seq<string>)
    | File(content: Bytes, writable: bool)
    | ControlFile(handler: Handler)

  datatype Node = Node(name: string, path: Path, nodeType: NodeType, permissions: nat)

  type Nodes = map<Path, Node>

  const DIRECTORY_MODE: nat := 493  // octal 755
  const WRITABLE_MODE: nat := 420   // octal 644
  const READ_ONLY_MODE: nat := 292  // octal 444

  function Name(p: Path): string {
    if p == [] then "" else p[|p| - 1]
  }

  function Parent(p: Path): Path
    requires p != []
  {
    p[..|p| - 1]
  }

  function DirectoryNode(p: Path): Node {
    Node(Name(p), p, Directory([]), DIRECTORY_MODE)
  }

  function FileNode(p: Path, content: Bytes, writable: bool): Node {
    Node(Name(p), p, File(content, writable), if writable then WRITABLE_MODE else READ_ONLY_MODE)
  }

  function ControlNode(p: Path, handler: Handler): Node {
    Node(Name(p), p, ControlFile(handler), WRITABLE_MODE)
  }

  // ----- the sections that run under the lock

  /** Lists the name with the parent, if that is a directory that does not list it yet. */
  function Link(nodes: Nodes, parent: Path, name: string): Nodes {
    if parent in nodes && nodes[parent].nodeType.Directory? && name !in nodes[parent].nodeType.children then
      nodes[parent := nodes[parent].(nodeType := Directory(nodes[parent].nodeType.children + [name]))]
    else nodes
  }

  /** Stores the node under its path, over whatever was there, and links it. */
  function Put(nodes: Nodes, node: Node): Nodes {
    var stored := nodes[node.path := node];
    if node.path == [] then stored else Link(stored, Parent(node.path), node.name)
  }

  function EnsureDirectory(nodes: Nodes, p: Path): Nodes {
    if p in nodes then nodes else Put(nodes, DirectoryNode(p))
  }

  /** The first k components of the path, the root being the first, made into directories where missing. */
  function MakeDirs(nodes: Nodes, p: Path, k: nat): Nodes
    requires k <= |p| + 1
  {
    if k == 0 then nodes else EnsureDirectory(MakeDirs(nodes, p, k - 1), p[..k - 1])
  }

  function MakeParent(nodes: Nodes, p: Path): Nodes {
    if p == [] then nodes else MakeDirs(nodes, Parent(p), |p|)
  }

  function Written(nodes: Nodes, p: Path, data: Bytes): Nodes {
    if p in nodes && nodes[p].nodeType.File? && nodes[p].nodeType.writable then
      nodes[p := nodes[p].(nodeType := nodes[p].nodeType.(content := data))]
    else nodes
  }

  // ----- the index agrees with the map

  ghost predicate NoDuplicates(names: seq<string>) {
    forall i, j :: 0 <= i < j < |names| ==> names[i] != names[j]
  }

  /** A directory lists exactly the names of the nodes below it, each once. */
  ghost predicate ListsChildren(nodes: Nodes, p: Path, children: seq<string>) {
    NoDuplicates(children) && forall n :: n in children <==> p + [n] in nodes
  }

  ghost predicate NodeConsistent(nodes: Nodes, p: Path)
    requires p in nodes
  {
    && nodes[p].path == p && nodes[p].name == Name(p)
    && (p != [] ==> Parent(p) in nodes)
    && (nodes[p].nodeType.Directory? ==> ListsChildren(nodes, p, nodes[p].nodeType.children))
  }

  ghost predicate Consistent(nodes: Nodes) {
    forall p :: p in nodes ==> NodeConsistent(nodes, p)
  }

  /** Every ancestor path of a node is a node. */
  lemma {:induction false} AncestorsExist(nodes: Nodes, p: Path, k: nat)
    requires Consistent(nodes) && p in nodes && k <= |p|
    ensures p[..k] in nodes
    decreases |p|
  {
    if k < |p| {
      assert NodeConsistent(nodes, p);
      AncestorsExist(nodes, Parent(p), k);
      assert Parent(p)[..k] == p[..k];
    } else {
      assert p[..k] == p;
    }
  }

  /** A node may be stored when its parent exists and it brings no child list that could be wrong. */
  ghost predicate Storable(nodes: Nodes, node: Node) {
    && node.name == Name(node.path)
    && (node.path != [] ==> Parent(node.path) in nodes)
    && (node.nodeType.Directory? ==> node.path !in nodes && node.nodeType.children == [])
  }

  lemma ChildPath(p: Path, q: Path, n: string)
    ensures p + [n] == q <==> q != [] && Parent(q) == p && Name(q) == n
  {
    if p + [n] == q {
      assert (p + [n])[..|p|] == p;
    }
    if q != [] && Parent(q) == p && Name(q) == n {
      assert q == q[..|q| - 1] + [q[|q| - 1]];
    }
  }

  lemma PutKeys(nodes: Nodes, node: Node)
    requires Storable(nodes, node)
    ensures Put(nodes, node).Keys == nodes.Keys + {node.path}
    ensures Put(nodes, node)[node.path] == node
  {
    if node.path != [] {
      assert Parent(node.path) != node.path;
    }
  }

  /** What Put does to the node at another path. */
  lemma PutElsewhere(nodes: Nodes, node: Node, q: Path)
    requires Storable(nodes, node) && q in nodes && q != node.path
    ensures
      var old', new' := nodes[q], Put(nodes, node)[q];
      if node.path != [] && q == Parent(node.path) && old'.nodeType.Directory? && node.name !in old'.nodeType.children then
        new' == old'.(nodeType := Directory(old'.nodeType.children + [node.name]))
      else new' == old'
  {
  }

  lemma PutKeepsNode(nodes: Nodes, node: Node, q: Path)
    requires Consistent(nodes) && Storable(nodes, node) && q in nodes && q != node.path
    ensures q in Put(nodes, node) && NodeConsistent(Put(nodes, node), q)
  {
    var nodes' := Put(nodes, node);
    PutKeys(nodes, node);
    PutElsewhere(nodes, node, q);
    assert NodeConsistent(nodes, q);
    if nodes[q].nodeType.Directory? {
      forall n
        ensures n in nodes'[q].nodeType.children <==> q + [n] in nodes'
      {
        ChildPath(q, node.path, n);
      }
    }
  }

  lemma PutNewNode(nodes: Nodes, node: Node)
    requires Consistent(nodes) && Storable(nodes, node)
    ensures node.path in Put(nodes, node) && NodeConsistent(Put(nodes, node), node.path)
  {
    var p := node.path;
    PutKeys(nodes, node);
    if node.nodeType.Directory? {
      forall n
        ensures p + [n] !in Put(nodes, node)
      {
        ChildPath(p, p + [n], n);
        assert p + [n] in nodes ==> NodeConsistent(nodes, p + [n]);
      }
    }
  }

  lemma PutKeepsConsistent(nodes: Nodes, node: Node)
    requires Consistent(nodes) && Storable(nodes, node)
    ensures Consistent(Put(nodes, node))
  {
    PutKeys(nodes, node);
    forall q | q in Put(nodes, node)
      ensures NodeConsistent(Put(nodes, node), q)
    {
      if q == node.path {
        PutNewNode(nodes, node);
      } else {
        PutKeepsNode(nodes, node, q);
      }
    }
  }

  lemma EnsureKeepsConsistent(nodes: Nodes, p: Path)
    requires Consistent(nodes) && (p != [] ==> Parent(p) in nodes)
    ensures Consistent(EnsureDirectory(nodes, p)) && EnsureDirectory(nodes, p).Keys == nodes.Keys + {p}
  {
    if p !in nodes {
      PutKeepsConsistent(nodes, DirectoryNode(p));
      PutKeys(nodes, DirectoryNode(p));
    }
  }

  lemma PrefixesUpTo(p: Path, k: nat, q: Path)
    requires 0 < k <= |p| + 1
    ensures |q| < k && q <= p <==> (|q| < k - 1 && q <= p) || q == p[..k - 1]
  {
  }

  /** nodes' has the paths of nodes and the prefixes of p that are shorter than k. */
  ghost predicate Covers(nodes: Nodes, p: Path, k: nat, nodes': Nodes) {
    forall q :: q in nodes' <==> q in nodes || (|q| < k && q <= p)
  }

  lemma CoversNext(nodes: Nodes, p: Path, k: nat, before: Nodes, after: Nodes)
    requires 0 < k <= |p| + 1 && Covers(nodes, p, k - 1, before) && after.Keys == before.Keys + {p[..k - 1]}
    ensures Covers(nodes, p, k, after)
  {
    forall q
      ensures q in after <==> q in nodes || (|q| < k && q <= p)
    {
      PrefixesUpTo(p, k, q);
    }
  }

  /** Making directories keeps the index right and adds exactly the missing prefixes of the path. */
  lemma {:induction false} MakeDirsKeepsConsistent(nodes: Nodes, p: Path, k: nat)
    requires Consistent(nodes) && k <= |p| + 1
    ensures Consistent(MakeDirs(nodes, p, k)) && Covers(nodes, p, k, MakeDirs(nodes, p, k))
  {
    if k > 0 {
      MakeDirsKeepsConsistent(nodes, p, k - 1);
      var before, last := MakeDirs(nodes, p, k - 1), p[..k - 1];
      assert last != [] ==> Parent(last) == p[..k - 2] && Parent(last) <= p;
      EnsureKeepsConsistent(before, last);
      CoversNext(nodes, p, k, before, MakeDirs(nodes, p, k));
    }
  }

  /** A node that was there keeps everything but the child list of a directory, which can grow; a new one is an empty or
      growing directory with mode 755. */
  ghost predicate OnlyDirectoriesAdded(before: Nodes, after: Nodes) {
    && (forall q :: q in before ==> q in after && SameBesidesChildren(before[q], after[q]))
    && forall q :: q in after && q !in before ==> after[q].nodeType.Directory? && after[q].permissions == 0x1ED
  }

  ghost predicate SameBesidesChildren(a: Node, b: Node) {
    && a.name == b.name && a.path == b.path && a.permissions == b.permissions
    && if a.nodeType.Directory? then b.nodeType.Directory? && a.nodeType.children <= b.nodeType.children
       else a.nodeType == b.nodeType
  }

  lemma EnsureAddsDirectory(nodes: Nodes, p: Path)
    requires p != [] ==> Parent(p) in nodes
    ensures OnlyDirectoriesAdded(nodes, EnsureDirectory(nodes, p))
  {
    if p !in nodes {
      PutKeys(nodes, DirectoryNode(p));
      forall q | q in nodes
        ensures SameBesidesChildren(nodes[q], Put(nodes, DirectoryNode(p))[q])
      {
        PutElsewhere(nodes, DirectoryNode(p), q);
      }
    }
  }

  lemma AddedTwice(a: Nodes, b: Nodes, c: Nodes)
    requires OnlyDirectoriesAdded(a, b) && OnlyDirectoriesAdded(b, c)
    ensures OnlyDirectoriesAdded(a, c)
  {
  }

  lemma {:induction false} MakeDirsAddsDirectories(nodes: Nodes, p: Path, k: nat)
    requires Consistent(nodes) && k <= |p| + 1
    ensures OnlyDirectoriesAdded(nodes, MakeDirs(nodes, p, k))
  {
    if k > 0 {
      MakeDirsAddsDirectories(nodes, p, k - 1);
      if k > 1 {
        ParentMade(nodes, p, k - 1);
      }
      EnsureAddsDirectory(MakeDirs(nodes, p, k - 1), p[..k - 1]);
      AddedTwice(nodes, MakeDirs(nodes, p, k - 1), MakeDirs(nodes, p, k));
    }
  }

  lemma MakeParentReady(nodes: Nodes, p: Path)
    requires Consistent(nodes)
    ensures Consistent(MakeParent(nodes, p)) && (p != [] ==> Parent(p) in MakeParent(nodes, p))
    ensures forall q :: q in nodes ==> q in MakeParent(nodes, p)
  {
    if p != [] {
      MakeDirsKeepsConsistent(nodes, Parent(p), |p|);
    }
  }

  lemma WrittenKeepsConsistent(nodes: Nodes, p: Path, data: Bytes)
    requires Consistent(nodes)
    ensures Consistent(Written(nodes, p, data)) && Written(nodes, p, data).Keys == nodes.Keys
  {
    var nodes' := Written(nodes, p, data);
    assert nodes'.Keys == nodes.Keys;
    forall q | q in nodes'
      ensures NodeConsistent(nodes', q)
    {
      assert NodeConsistent(nodes, q);
    }
  }

  // ----- what files hold

  /** The files and control files, without the directories. */
  ghost function Leaves(nodes: Nodes): map<Path, NodeType> {
    map p | p in nodes && !nodes[p].nodeType.Directory? :: nodes[p].nodeType
  }

  lemma PutLeaves(nodes: Nodes, node: Node)
    requires Storable(nodes, node)
    ensures Leaves(Put(nodes, node)) ==
      if node.nodeType.Directory? then Leaves(nodes) else Leaves(nodes)[node.path := node.nodeType]
  {
    var after := if node.nodeType.Directory? then Leaves(nodes) else Leaves(nodes)[node.path := node.nodeType];
    PutKeys(nodes, node);
    forall q
      ensures q in Leaves(Put(nodes, node)) <==> q in after
      ensures q in after ==> Leaves(Put(nodes, node))[q] == after[q]
    {
      if q in nodes && q != node.path {
        PutElsewhere(nodes, node, q);
      }
    }
  }

  lemma WrittenLeaves(nodes: Nodes, p: Path, data: Bytes)
    ensures Leaves(Written(nodes, p, data)) ==
      if p in nodes && nodes[p].nodeType.File? && nodes[p].nodeType.writable then Leaves(nodes)[p := File(data, true)]
      else Leaves(nodes)
  {
  }

  lemma EnsureKeepsLeaves(nodes: Nodes, p: Path)
    requires p != [] ==> Parent(p) in nodes
    ensures Leaves(EnsureDirectory(nodes, p)) == Leaves(nodes)
  {
    if p !in nodes {
      PutLeaves(nodes, DirectoryNode(p));
    }
  }

  lemma ParentMade(nodes: Nodes, p: Path, k: nat)
    requires Consistent(nodes) && 0 < k <= |p|
    ensures p[..k] != [] && Parent(p[..k]) in MakeDirs(nodes, p, k)
  {
    MakeDirsKeepsConsistent(nodes, p, k);
    assert Parent(p[..k]) == p[..k - 1];
  }

  lemma {:induction false} MakeDirsKeepsLeaves(nodes: Nodes, p: Path, k: nat)
    requires Consistent(nodes) && k <= |p| + 1
    ensures Leaves(MakeDirs(nodes, p, k)) == Leaves(nodes)
  {
    if k > 0 {
      MakeDirsKeepsLeaves(nodes, p, k - 1);
      if k > 1 {
        ParentMade(nodes, p, k - 1);
      }
      EnsureKeepsLeaves(MakeDirs(nodes, p, k - 1), p[..k - 1]);
    }
  }

  /** Creating a file changes what that one path holds and nothing that any other file holds. */
  lemma CreateChangesOneLeaf(nodes: Nodes, node: Node)
    requires Consistent(nodes) && node.name == Name(node.path) && !node.nodeType.Directory?
    ensures Leaves(Put(MakeParent(nodes, node.path), node)) == Leaves(nodes)[node.path := node.nodeType]
  {
    MakeParentReady(nodes, node.path);
    PutLeaves(MakeParent(nodes, node.path), node);
    if node.path != [] {
      MakeDirsKeepsLeaves(nodes, Parent(node.path), |node.path|);
    }
  }

  // ----- interleavings

  /** The sections that threads run one at a time: a whole directory creation or write, or one of the two
      halves of a file creation, which the creating thread runs with anything in between. */
  datatype Action =
    | CreateDirectory(path: Path)
    | BeginCreate(thread: nat, node: Node)
    | FinishCreate(thread: nat)
    | Write(path: Path, data: Bytes)

  /** The nodes, and for each thread in the middle of a creation the node it will store. */
  datatype State = State(nodes: Nodes, pending: map<nat, Node>)

  ghost predicate Enabled(s: State, a: Action) {
    match a
    case CreateDirectory(_) => true
    case BeginCreate(t, node) => t !in s.pending && node.name == Name(node.path) && !node.nodeType.Directory?
    case FinishCreate(t) => t in s.pending
    case Write(_, _) => true
  }

  ghost function Next(s: State, a: Action): State
    requires Enabled(s, a)
  {
    match a
    case CreateDirectory(p) => s.(nodes := MakeDirs(s.nodes, p, |p| + 1))
    case BeginCreate(t, node) => State(MakeParent(s.nodes, node.path), s.pending[t := node])
    case FinishCreate(t) => State(Put(s.nodes, s.pending[t]), s.pending - {t})
    case Write(p, data) => s.(nodes := Written(s.nodes, p, data))
  }

  ghost predicate Invariant(s: State) {
    && Consistent(s.nodes)
    && forall t :: t in s.pending ==> Storable(s.nodes, s.pending[t]) && !s.pending[t].nodeType.Directory?
  }

  lemma NextKeepsInvariant(s: State, a: Action)
    requires Invariant(s) && Enabled(s, a)
    ensures Invariant(Next(s, a))
    ensures s.nodes.Keys <= Next(s, a).nodes.Keys
  {
    match a
    case CreateDirectory(p) =>
      MakeDirsKeepsConsistent(s.nodes, p, |p| + 1);
    case BeginCreate(t, node) =>
      MakeParentReady(s.nodes, node.path);
    case FinishCreate(t) =>
      PutKeepsConsistent(s.nodes, s.pending[t]);
      PutKeys(s.nodes, s.pending[t]);
    case Write(p, data) =>
      WrittenKeepsConsistent(s.nodes, p, data);
  }

  /** The states of a run from the empty filesystem, one action after the other, in any order that the threads may take. */
  ghost predicate Run(actions: seq<Action>, states: seq<State>) {
    && |states| == |actions| + 1
    && states[0] == State(map[], map[])
    && forall i {:trigger actions[i]} :: 0 <= i < |actions| ==>
         Enabled(states[i], actions[i]) && states[i + 1] == Next(states[i], actions[i])
  }

  lemma {:induction false} RunInvariant(actions: seq<Action>, states: seq<State>, i: nat)
    requires Run(actions, states) && i < |states|
    ensures Invariant(states[i])
  {
    if i > 0 {
      RunInvariant(actions, states, i - 1);
      assert Enabled(states[i - 1], actions[i - 1]);
      NextKeepsInvariant(states[i - 1], actions[i - 1]);
    }
  }

  /** In every state of every interleaving: a directory lists exactly the names of the nodes whose parent path
      it is, each once; and every ancestor path of a node is a node. */
  lemma ListingsAlwaysExact(actions: seq<Action>, states: seq<State>, i: nat, p: Path)
    requires Run(actions, states) && i < |states| && p in states[i].nodes
    ensures states[i].nodes[p].nodeType.Directory? ==> ListsChildren(states[i].nodes, p, states[i].nodes[p].nodeType.children)
    ensures forall k :: 0 <= k <= |p| ==> p[..k] in states[i].nodes
  {
    RunInvariant(actions, states, i);
    assert NodeConsistent(states[i].nodes, p);
    forall k | 0 <= k <= |p|
      ensures p[..k] in states[i].nodes
    {
      AncestorsExist(states[i].nodes, p, k);
    }
  }

  /** Paths never disappear again. */
  lemma {:induction false} PathsPersist(actions: seq<Action>, states: seq<State>, i: nat, j: nat)
    requires Run(actions, states) && i <= j < |states|
    ensures states[i].nodes.Keys <= states[j].nodes.Keys
    decreases j
  {
    if i < j {
      PathsPersist(actions, states, i, j - 1);
      RunInvariant(actions, states, j - 1);
      assert Enabled(states[j - 1], actions[j - 1]);
      NextKeepsInvariant(states[j - 1], actions[j - 1]);
    }
  }

  // ----- what files hold, in every interleaving

  /** The node that each thread in the middle of a creation will store, from the actions alone. */
  ghost function Begun(actions: seq<Action>, n: nat): map<nat, Node>
    requires n <= |actions|
  {
    if n == 0 then map[]
    else
      var before := Begun(actions, n - 1);
      match actions[n - 1]
      case BeginCreate(t, node) => before[t := node]
      case FinishCreate(t) => before - {t}
      case _ => before
  }

  /** A flat map of contents, without directories: each path holds what the last finished creation of it, or the
      last write that it let through, left there. */
  ghost function Held(actions: seq<Action>, n: nat): map<Path, NodeType>
    requires n <= |actions|
  {
    if n == 0 then map[]
    else
      var before := Held(actions, n - 1);
      match actions[n - 1]
      case FinishCreate(t) =>
        if t in Begun(actions, n - 1) then
          before[Begun(actions, n - 1)[t].path := Begun(actions, n - 1)[t].nodeType]
        else before
      case Write(p, data) =>
        if p in before && before[p].File? && before[p].writable then before[p := File(data, true)] else before
      case _ => before
  }

  lemma NextLeaves(s: State, a: Action)
    requires Invariant(s) && Enabled(s, a)
    ensures Leaves(Next(s, a).nodes) ==
      match a
      case FinishCreate(t) => Leaves(s.nodes)[s.pending[t].path := s.pending[t].nodeType]
      case Write(p, data) =>
        if p in Leaves(s.nodes) && Leaves(s.nodes)[p].File? && Leaves(s.nodes)[p].writable
        then Leaves(s.nodes)[p := File(data, true)] else Leaves(s.nodes)
      case _ => Leaves(s.nodes)
  {
    match a
    case CreateDirectory(p) =>
      MakeDirsKeepsLeaves(s.nodes, p, |p| + 1);
    case BeginCreate(t, node) =>
      if node.path != [] {
        MakeDirsKeepsLeaves(s.nodes, Parent(node.path), |node.path|);
      }
    case FinishCreate(t) =>
      PutLeaves(s.nodes, s.pending[t]);
    case Write(p, data) =>
      WrittenLeaves(s.nodes, p, data);
  }

  /** In every state of every interleaving the files hold what that flat map holds: the tree, the listings and the
      directories made on the way, by whichever threads, make no difference to them. */
  lemma {:induction false} RunLeaves(actions: seq<Action>, states: seq<State>, i: nat)
    requires Run(actions, states) && i < |states|
    ensures states[i].pending == Begun(actions, i)
    ensures Leaves(states[i].nodes) == Held(actions, i)
  {
    if i > 0 {
      RunLeaves(actions, states, i - 1);
      RunInvariant(actions, states, i - 1);
      assert Enabled(states[i - 1], actions[i - 1]);
      NextLeaves(states[i - 1], actions[i - 1]);
    }
  }

  // ----- the object

  datatype ReadResult = Content(bytes: Bytes) | FromHandler(handler: Handler) | FileNotFound
  datatype WriteResult = Stored | ToHandler(handler: Handler) | ReadOnly | NoSuchFile

  ghost function ReadAnswer(nodes: Nodes, path: Path): ReadResult {
    if path !in Leaves(nodes) then FileNotFound
    else match Leaves(nodes)[path] {
      case File(content, _) => Content(content)
      case ControlFile(handler) => FromHandler(handler)
    }
  }

  ghost function WriteAnswer(nodes: Nodes, path: Path): WriteResult {
    if path !in Leaves(nodes) then NoSuchFile
    else match Leaves(nodes)[path] {
      case File(_, writable) => if writable then Stored else ReadOnly
      case ControlFile(handler) => ToHandler(handler)
    }
  }

  /** A created file reads back as its content, under its permissions; a control file as its handler. */
  lemma ReadAfterCreate(nodes: Nodes, path: Path, content: Bytes, writable: bool, handler: Handler)
    requires Consistent(nodes)
    ensures ReadAnswer(Put(MakeParent(nodes, path), FileNode(path, content, writable)), path) == Content(content)
    ensures ReadAnswer(Put(MakeParent(nodes, path), ControlNode(path, handler)), path) == FromHandler(handler)
  {
    CreateChangesOneLeaf(nodes, FileNode(path, content, writable));
    CreateChangesOneLeaf(nodes, ControlNode(path, handler));
  }

  /** An accepted write reads back, a refused one leaves what was read before, and no write is seen at another path. */
  lemma ReadAfterWrite(nodes: Nodes, path: Path, data: Bytes, other: Path)
    ensures ReadAnswer(Written(nodes, path, data), path) ==
      if WriteAnswer(nodes, path) == Stored then Content(data) else ReadAnswer(nodes, path)
    ensures other != path ==> ReadAnswer(Written(nodes, path, data), other) == ReadAnswer(nodes, other)
  {
    WrittenLeaves(nodes, path, data);
  }

  /** In every interleaving a read answers with what the flat map of contents holds. */
  lemma RunReads(actions: seq<Action>, states: seq<State>, i: nat, p: Path)
    requires Run(actions, states) && i < |states|
    ensures p !in Held(actions, i) ==> ReadAnswer(states[i].nodes, p) == FileNotFound
    ensures p in Held(actions, i) && Held(actions, i)[p].File? ==>
      ReadAnswer(states[i].nodes, p) == Content(Held(actions, i)[p].content)
    ensures p in Held(actions, i) && Held(actions, i)[p].ControlFile? ==>
      ReadAnswer(states[i].nodes, p) == FromHandler(Held(actions, i)[p].handler)
  {
    RunLeaves(actions, states, i);
  }

  class SyntheticFilesystem {
    var nodes: Nodes

    ghost predicate Valid()
      reads this
    {
      Consistent(nodes)
    }

    constructor ()
      ensures Valid() && nodes == map[]
    {
      nodes := map[];
    }

    /** Walks the components from the root and creates the missing directories. */
    method CreateDirectory(path: Path)
      requires Valid()
      modifies this
      ensures Valid() && nodes == MakeDirs(old(nodes), path, |path| + 1)
      ensures forall q :: q in nodes <==> q in old(nodes) || q <= path
      ensures OnlyDirectoriesAdded(old(nodes), nodes)
    {
      ghost var start := nodes;
      for i := 0 to |path| + 1
        invariant nodes == MakeDirs(start, path, i)
      {
        var current := path[..i];
        if current !in nodes {
          PutNode(DirectoryNode(current));
        }
      }
      MakeDirsKeepsConsistent(start, path, |path| + 1);
      MakeDirsAddsDirectories(start, path, |path| + 1);
    }

    /** Stores a node and enters its name into the parent's child list. */
    method PutNode(node: Node)
      modifies this
      ensures nodes == Put(old(nodes), node)
    {
      nodes := nodes[node.path := node];
      if node.path != [] {
        var parent := Parent(node.path);
        if parent in nodes {
          match nodes[parent].nodeType
          case Directory(children) =>
            if node.name !in children {
              nodes := nodes[parent := nodes[parent].(nodeType := Directory(children + [node.name]))];
            }
          case _ =>
        }
      }
    }

    /** The two sections of a creation, one right after the other. */
    method CreateNode(node: Node)
      requires Valid() && node.name == Name(node.path) && !node.nodeType.Directory?
      modifies this
      ensures Valid() && nodes == Put(MakeParent(old(nodes), node.path), node)
      ensures node.path in nodes && nodes[node.path] == node
      ensures Leaves(nodes) == Leaves(old(nodes))[node.path := node.nodeType]
    {
      ghost var start := nodes;
      MakeParentReady(start, node.path);
      CreateChangesOneLeaf(start, node);
      if node.path != [] {
        CreateDirectory(Parent(node.path));
      }
      PutKeepsConsistent(nodes, node);
      PutKeys(nodes, node);
      PutNode(node);
    }

    method CreateFile(path: Path, content: Bytes, writable: bool)
      requires Valid()
      modifies this
      ensures Valid() && nodes == Put(MakeParent(old(nodes), path), FileNode(path, content, writable))
      ensures path in nodes && nodes[path].permissions == if writable then 0x1A4 else 0x124
      ensures Leaves(nodes) == Leaves(old(nodes))[path := File(content, writable)]
    {
      CreateNode(FileNode(path, content, writable));
    }

    method CreateControlFile(path: Path, handler: Handler)
      requires Valid()
      modifies this
      ensures Valid() && nodes == Put(MakeParent(old(nodes), path), ControlNode(path, handler))
      ensures path in nodes && nodes[path].permissions == 0x1A4
      ensures Leaves(nodes) == Leaves(old(nodes))[path := ControlFile(handler)]
    {
      CreateNode(ControlNode(path, handler));
    }

    method Exists(path: Path) returns (r: bool)
      ensures r <==> path in nodes
    {
      r := path in nodes;
    }

    /** The names of the nodes whose parent is the directory, each once; nothing for anything else. */
    method ListDirectory(path: Path) returns (names: seq<string>)
      requires Valid()
      ensures if path in nodes && nodes[path].nodeType.Directory? then
                NoDuplicates(names) && forall n :: n in names <==> path + [n] in nodes
              else names == []
    {
      if path in nodes {
        assert NodeConsistent(nodes, path);
        match nodes[path].nodeType
        case Directory(children) => return children;
        case _ =>
      }
      return [];
    }

    method ReadFile(path: Path) returns (r: ReadResult)
      ensures r == ReadAnswer(nodes, path)
      ensures r == FileNotFound <==> path !in nodes || nodes[path].nodeType.Directory?
      ensures path in nodes && nodes[path].nodeType.File? ==> r == Content(nodes[path].nodeType.content)
      ensures path in nodes && nodes[path].nodeType.ControlFile? ==> r == FromHandler(nodes[path].nodeType.handler)
    {
      if path in nodes {
        match nodes[path].nodeType
        case File(content, _) => return Content(content);
        case ControlFile(handler) => return FromHandler(handler);
        case _ =>
      }
      return FileNotFound;
    }

    method WriteFile(path: Path, data: Bytes) returns (r: WriteResult)
      requires Valid()
      modifies this
      ensures Valid() && nodes == Written(old(nodes), path, data)
      ensures r == WriteAnswer(old(nodes), path)
      ensures r == NoSuchFile <==> path !in old(nodes) || old(nodes)[path].nodeType.Directory?
      ensures r == Stored <==> path in old(nodes) && old(nodes)[path].nodeType.File? && old(nodes)[path].nodeType.writable
      ensures path in old(nodes) && old(nodes)[path].nodeType.ControlFile? ==>
        r == ToHandler(old(nodes)[path].nodeType.handler) && nodes == old(nodes)
      ensures Leaves(nodes) == if r.Stored? then Leaves(old(nodes))[path := File(data, true)] else Leaves(old(nodes))
    {
      WrittenKeepsConsistent(nodes, path, data);
      WrittenLeaves(nodes, path, data);
      if path in nodes {
        match nodes[path].nodeType
        case File(content, writable) =>
          if writable {
            nodes := nodes[path := nodes[path].(nodeType := File(data, writable))];
            return Stored;
          } else {
            return ReadOnly;
          }
        case ControlFile(handler) => return ToHandler(handler);
        case _ =>
      }
      return NoSuchFile;
    }
  }
}
