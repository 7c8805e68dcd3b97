# Content-addressable network: verified model of the network state

This project models the network-state core of a toy content-addressable
network (`main.py`).

- **Nodes.** A node (`CANNode`) has an id, a 2-D position and a list of neighbours.
- **The network.** The network (`ContentAddressableNetwork`) keeps an ordered list of member nodes.
- **The mesh.** After every addition the network rebuilds a *full mesh*: each member's neighbours are all the other members, in member order.
- **Removal.** Removing an id drops every member carrying that id. It also purges that id from the remaining members' neighbour lists.
- **Routing.** A key is routed by hashing it with SHA-1 and reading the digest as an integer `h`. The routing query is a linear scan for the member nearest to the point `(h, h)`. The first member at the minimal distance wins.

Modules:

- `Options`: `Option`, the `None`-or-node result of routing.
- `Seqs`: `Filter`, the order-preserving meaning of a Python list comprehension, with its algebra (concatenation, idempotence, commutation).
- `Metric`: integer points, squared Euclidean distance, and the "first nearest index" predicate `FirstNearest`. It also proves that the distance-to-`(h, h)` metric degenerates for large hashes: the largest coordinate sum wins.
- `Digest`: a SHA-1 digest as 20 bytes, and its big-endian integer value.
- `Can`: the classes `Node` and `Network`.
  - `Network.nodes` is a `seq<Node>` field that the methods reassign.
  - `Node.neighbours` is a `seq<Node>` field that `UpdateNeighbours` and `RemoveNode` overwrite in place.
  - The full-mesh invariant is the predicate `Network.FullMesh`.
  - Two filters keep identity and id apart. `Without` excludes one object by identity, as `update_neighbours` does. `WithoutId` drops by id, as `remove_node` does.
- `CanScenarios`: client methods driving the network through small fixed runs, each with its outcome as a postcondition:
  - a three-node mesh;
  - removal of its middle node;
  - routing in a one-node network and in an empty network;
  - routing twice;
  - removing twice.

Three points where the intended behaviour and what the code does part ways; the model follows the code:

- **Unique ids.** Unique ids are intended, but `add_node` never rejects a duplicate. The model accepts duplicates too. `UniqueIds` is a separate predicate that `AddNode` characterises and `RemoveNode` preserves, never a precondition.
- **Neighbour entries.** Neighbour entries are meant as non-owning references to other members. The code stores the node objects themselves and excludes a node from its own list by object identity (`other_node != node`, with no `__eq__` defined). The model stores `Node` references and keeps both comparisons: identity (`Without`) and id (`WithoutId`).
- **Routing.** Because the hash is not reduced into the coordinate range, routing degenerates to "largest coordinate sum wins" under exact arithmetic, as `Metric.LargerSumIsCloser` proves. The code's float arithmetic behaves differently (see `GetClosestNode` under "## Left out").

## Model

| member | source | states |
|---|---|---|
| Seqs.Filter | main.py:30 | the comprehension result is no longer than its input and holds exactly the input's entries that pass the test |
| Seqs.FilterConcat | main.py:30 | filtering a concatenation filters each part and keeps their relative order |
| Seqs.FilterSingleton | main.py:32 | a one-entry list keeps its entry exactly when it passes |
| Seqs.FilterAppend | main.py:50-52 | filtering a list extended by one entry extends the filtered list by that entry exactly when it passes |
| Seqs.FilterKeepsAll | main.py:30 | a test that passes every entry leaves the list unchanged |
| Seqs.FilterIdempotent | main.py:30 | filtering twice with the same test equals filtering once |
| Seqs.FilterCommute | main.py:30-32 | two filters applied in either order give the same list |
| Metric.SquaredDistance | main.py:19-20 | the squared distance between two points is zero exactly when the points are equal |
| Metric.SquaredDistanceSymmetric | main.py:19-20 | distance does not depend on argument order |
| Metric.FirstNearestUnique | main.py:39-43 | at most one index is nearest with no earlier index as near, so the scan's choice is determined |
| Metric.DistanceToTarget | main.py:40 | the squared distance to `(h, h)` expanded into coordinate squares, a cross term in `h` times the coordinate sum, and `2 h^2` |
| Metric.LargerSumIsCloser | main.py:39-43 | for points in `[0, m]^2` and a hash above `m^2`, the point with the larger coordinate sum is strictly closer to `(h, h)`, whatever the hash |
| Digest.Pow256 | main.py:23 | only defines `256^n` (positive), the bound in which the 160-bit digest value is stated |
| Digest.BigEndian | main.py:23 | the big-endian value of `n` bytes is below `256^n` |
| Digest.BigEndianInjective | main.py:23 | byte strings of equal length have equal big-endian values exactly when they are equal |
| Can.Node.constructor | main.py:7-10 | a new node has the given id, sits at the origin and has no neighbours |
| Can.Without | main.py:50-51 | the list omits the excluded object (by identity) and keeps every other entry, adding none |
| Can.WithoutId | main.py:30 | the list keeps exactly the entries whose id differs from `k` |
| Can.WithoutIdIdempotent | main.py:29-32 | removing an id a second time removes nothing more |
| Can.WithoutAbsentId | main.py:30 | removing an id no entry carries leaves the list as it was |
| Can.WithoutCommutes | main.py:30-32 | excluding one object and dropping one id give the same list in either order |
| Can.WithoutPrefix | main.py:50-52 | one more loop step over the members extends the neighbour list by the current member exactly when it is not the node itself |
| Can.WithoutSplit | main.py:50-52 | excluding an object that occurs once joins what stood before and after it |
| Can.PositionsOf | main.py:39-40 | the positions of the members, one per member, in member order |
| Can.AppendUniqueIds | main.py:25-26 | appending a node keeps ids unique exactly when its id is new |
| Can.PrependUniqueIds | main.py:30 | a node in front of a list keeps ids unique exactly when its id is new to the list |
| Can.WithoutIdKeepsUniqueIds | main.py:30 | dropping an id never creates duplicate ids |
| Can.Network.constructor | main.py:16-17 | a new network has no members, so the full mesh holds trivially |
| Can.Network.Hash | main.py:22-23 | a key's hash is the big-endian value of its 20-byte digest, below `2^160` |
| Can.Network.HashDistinguishesDigests | main.py:22-23 | two keys hash to the same integer exactly when their digests are equal |
| Can.Network.UpdateNeighbours | main.py:47-52 | afterwards every member's neighbours are all the members except itself (by identity), in member order |
| Can.Network.AddNode | main.py:25-27 | the node is appended to the members and the full mesh holds. Ids stay unique exactly when they were unique and the new id is fresh |
| Can.Network.RemoveNode | main.py:29-32 | the members become the order-keeping id filter of the old members. Id `k` is removed from each remaining member's old neighbours, and removed members keep theirs. A full mesh and unique ids are preserved |
| Can.Network.PurgeNeighbours | main.py:31-32 | each member's neighbour list becomes its old list without the entries of id `k` |
| Can.Network.GetClosestNode | main.py:34-45 | `None` exactly when there are no members. Otherwise it returns the member at the first index whose distance to `(h, h)` is minimal, and the state is left unchanged |
| CanScenarios.WithoutOfThree | main.py:47-52 | with members A, B, C the mesh rebuild gives each node the other two in member order; with A, C each gets the other |
| CanScenarios.ThreeNodeMesh | main.py:25-27 | adding A, B, C gives A [B, C], B [A, C], C [A, B] |
| CanScenarios.RemoveMiddle | main.py:29-32 | removing B from that mesh leaves members [A, C] with A [C] and C [A] |
| CanScenarios.SingleNodeRouting | main.py:34-45 | a one-member network routes any key to its only member |
| CanScenarios.EmptyRouting | main.py:34-45 | an empty network routes no key |
| CanScenarios.RoutingIsDeterministic | main.py:34-45 | routing the same key twice returns the same node |
| CanScenarios.RemoveTwice | main.py:29-32 | removing an id twice gives the state a single removal gives |

## Left out

- `display_network`, `nearest_neighbour_routing` and `CANNode.__repr__` only print or format text, so they are left out.
- `visualize_network` draws with matplotlib, so it is left out.
- The module-level driver is left out. It builds random positions and prints results.
- Can.Network.Hash: SHA-1 and the UTF-8 encoding of the key sit outside the model. They are supplied as the network's deterministic `digest` function (key to 20 bytes). Parsing the hexadecimal digest text is folded into reading the bytes big-endian, which yields the same integer.
- Metric.SquaredDistance: it returns the squared distance, not the distance. Since `sqrt` is strictly monotone, every comparison the source makes between distances orders them the same way, exactly as in the model.
- Floating point is left out. Positions are exact integers rather than floats, so the scenario positions (0, 0), (1, 1), (0.5, 0.5) appear doubled as (0, 0), (2, 2), (1, 1).
- The `float('inf')` start value is left out. It becomes "no candidate yet" (`closest == None`).
- Can.Network.GetClosestNode: float rounding is not modelled. The source converts the hash to a float and subtracts it from a float coordinate. For a typical hash near `2^159`, the float spacing there is `2^107`, so every coordinate far smaller than that gives back `-hash` unchanged. All members then sit at the same float distance and the first member wins. The model compares exact distances instead.
- Ids are `int`. Python accepts any comparable value as an id.
- Can.Network.UpdateNeighbours: each node's neighbour list is built in a local sequence and stored once. The source clears the list and appends to it in place. No other code runs in between, so the final state is the same.
