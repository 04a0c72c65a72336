# A verified model of a ZigBee-style vending-machine network

The system is a tree of vending machines ("distributors") addressed the way
a ZigBee cluster tree is addressed. It is built from three parameters: the
number of devices per node (`d`), the number of gateways per node (`g`) and
the depth of the tree (`D`).

- The root is the distributor manager. It reaches the first ring of gateways
  over RMI and runs one money or stock query at a time.
- Every gateway hands addresses out of its own sub-interval to the devices
  and gateways that join below it. It forwards a query down to the children
  whose part of the tree holds a target, answers for itself when it is a
  target, and passes replies and alerts up to its parent.
- A distributor sells products. It raises a stock alert or a money alert
  after a sale, and answers money and stock queries.
- The admin console parses a command line and asks the manager to query
  nodes, free their addresses, or show the logs history or the help.

The Dafny project has these modules, one file each:

| module | file | what it holds |
|---|---|---|
| `ZigBee` | zigbee.dfy | The address arithmetic: address count, sub-tree sizes and child intervals. `Info` (parent, depth, type) is a recursive descent, and the two interval/information loops are methods proved against it. |
| `TreeBrowse` | tree_browse.dfy | The tree check of the ZigBee test bootloader, as a sequence of checks. Every address is checked exactly once and every check agrees with `Info`. |
| `Utils` | utils.dfy | Splitting a command line on spaces the way `String.split(" ")` does, command and argument extraction, `isNaN`/`parseInt` on decimal strings, and the title banner. |
| `Products` | product.dfy | The product shelf and `retrieveOne`. |
| `Vending` | distributor.dfy | The distributor: sale and alerts, its start-up, and its answer to queries. |
| `Protocol` | protocol.dfy | The frame kinds as a `Message` datatype, and the shared constants. Sends are modelled as a sequence of `Action`s, with counting functions over them. |
| `Tables` | tables.dfy | The `TreeMap`s of the code as sorted sequences of entries. Also: insertion, the address rings, and the first-free-address allocation. |
| `Gateway` | gateway.dfy | The distributor gateway: its address tables, address allocation, network parameters and query fan-out. |
| `Manager` | manager.dfy | The distributor manager: the first ring, the connected distributors, the logs, and the query life cycle (dispatch, reply collection, timeout, money and stock tables). |
| `Admin` | admin.dfy | The admin console: command dispatch, node-id arguments, help, freeing addresses and asking for money or stock. |

Money is counted in integer cents: a price of 1.50 is 150, and the money
alert limit of 50 is 5000.

Each network send is an `Action` in a returned sequence:
- `ToParent` is a frame sent up to the parent;
- `ToAddress` is a datagram to an address and port;
- `ToGateway` is an RMI call to a ring gateway;
- `ToAdmin` is a line printed on the admin console.

Two facts about the code that the model makes explicit:
- For `(d, g, D) = (4, 2, 3)` the code gives 43 addresses and a first ring {1, 20} with step 19 (`ZigBee.Example423`, `Manager.FirstRing423`).
- The manager does not answer in the name of a disconnected ring gateway. It only prints an error line, so the expected-reply count for that gateway's targets is never reached and the query ends by timeout. Gateways, by contrast, do send a not-connected reply for a disconnected child (`Gateway.BroadcastCounts`).

## Model

| member | source | states |
|---|---|---|
| ZigBee.AddressCount | src/fr/tortevois/zigbee/ZigBee.java:41-47 | The address count is 1 + (g + d)·(1 + g + … + g^(D-1)), for both branches of the code (g = 1 and g ≥ 2) |
| ZigBee.AddressCountExactDivision | src/fr/tortevois/zigbee/ZigBee.java:41-47 | For g ≥ 2 the integer division of the code is exact: (g^D − 1)(g + d) is a multiple of g − 1, so nothing is truncated |
| ZigBee.CountBranches | src/fr/tortevois/zigbee/ZigBee.java:41-47 | For g = 1 the count's branch part is D·(g + d); for g ≥ 2, (g^D − 1)(g + d) is (g + d)·(1 + … + g^(D-1)) times g − 1, so the code's division by g − 1 gives back the geometric sum |
| ZigBee.Size | src/fr/tortevois/zigbee/ZigBee.java:59-117 | A sub-tree rooted at depth k holds at least one address, and exactly one (a leaf gateway) iff k ≥ D |
| ZigBee.SizeClosedForm | src/fr/tortevois/zigbee/ZigBee.java:41-47 | The recursive sub-tree size equals the closed form of getAddressCount applied to the remaining depth |
| ZigBee.AddressCountIsRootSize | src/fr/tortevois/zigbee/ZigBee.java:41-47 | The address count is the size of the whole tree, i.e. the root, its d devices and g sub-trees of depth 1 |
| ZigBee.ChildInterval | src/fr/tortevois/zigbee/ZigBee.java:59-117 | The children interval of node r at depth k starts at r + 1, its devices end the sub-tree; above the leaves the g gateway blocks have the step of the sub-tree one level down |
| ZigBee.BlockStart | src/fr/tortevois/zigbee/ZigBee.java:83-91 | The gateway block holding s starts at most at s and ends after s |
| ZigBee.Locate | src/fr/tortevois/zigbee/ZigBee.java:129-207 | Inside a sub-tree an address has a parent before it, a depth below the sub-tree root and at most D, and is a gateway or a device |
| ZigBee.Info | src/fr/tortevois/zigbee/ZigBee.java:129-207 | Address 0 is the root (parent 0, depth 0); every other address has an earlier parent, depth between 1 and D, and is a gateway or a device |
| ZigBee.Owner | src/fr/tortevois/zigbee/ZigBee.java:59-117 | The node whose children interval getNextTreeInterval returns is at or before the sought address, at depth at most D |
| ZigBee.LocateDevice | src/fr/tortevois/zigbee/ZigBee.java:157-198 | The last d addresses of a sub-tree are its root's devices, one level down |
| ZigBee.LocateDescend | src/fr/tortevois/zigbee/ZigBee.java:157-169 | An address at the start of a gateway block is that gateway; any other address of the block is found by descending into it |
| ZigBee.LocateLastLevel | src/fr/tortevois/zigbee/ZigBee.java:157-193 | At the last level every non-device address is a leaf gateway child of the sub-tree root |
| ZigBee.NextStep | src/fr/tortevois/zigbee/ZigBee.java:83-88 | The code's step update (step − 1 − d) / g, with Java's truncating division, yields the next level's block size |
| ZigBee.FirstStep | src/fr/tortevois/zigbee/ZigBee.java:66-70 | The first step computed from the address count is the block size of the first ring |
| ZigBee.DescendKeeps | src/fr/tortevois/zigbee/ZigBee.java:83-88 | One descent of getNextTreeInterval's loop: the block holding s is below the last level, the code's new step is the next level's block size, and s is that gateway or lies below it |
| ZigBee.WalkDown | src/fr/tortevois/zigbee/ZigBee.java:83-88 | Going down into the block that holds the sought address keeps the loop's state: the new interval is that gateway's, with the next level's step |
| ZigBee.WalkAcross | src/fr/tortevois/zigbee/ZigBee.java:89-91 | Moving past a block that does not hold the sought address keeps the loop's state one block further, and the step is positive |
| ZigBee.WalkEnds | src/fr/tortevois/zigbee/ZigBee.java:81-109 | When getNextTreeInterval's loop stops, the node whose interval it holds is the owner of the sought address |
| ZigBee.Descend | src/fr/tortevois/zigbee/ZigBee.java:72-109 | The loop of getNextTreeInterval, started on the root interval, ends on the children interval of the address's owner (the root's for a negative address) |
| ZigBee.SearchStarts | src/fr/tortevois/zigbee/ZigBee.java:145-150 | getNodeInformation's loop starts on the root interval, one level down, with the address below the root |
| ZigBee.SearchDescends | src/fr/tortevois/zigbee/ZigBee.java:159-165 | One descent of getNodeInformation's loop: the new parent, depth, limits and step are those of the gateway whose block holds the address, and the address still lies below it |
| ZigBee.SearchNext | src/fr/tortevois/zigbee/ZigBee.java:166-168 | Moving node on by one step keeps the loop on the same parent, one gateway block further |
| ZigBee.SearchEnds | src/fr/tortevois/zigbee/ZigBee.java:157-198 | When getNodeInformation's loop stops, the parent and depth are the address's, and it is a gateway iff it lies in [lowLimit, uppLimit), a device iff in [uppLimit, uppLimit + d); a negative address leaves (0, 1) and the root limits |
| ZigBee.Search | src/fr/tortevois/zigbee/ZigBee.java:145-169 | The loop of getNodeInformation ends with the parent and depth of the address and limits whose gateway part holds exactly the gateways and whose device part the devices |
| ZigBee.OwnerOfDevice | src/fr/tortevois/zigbee/ZigBee.java:59-117 | The interval returned for a device is its parent's |
| ZigBee.OwnerOfGateway | src/fr/tortevois/zigbee/ZigBee.java:59-117 | The interval returned for a gateway is its own children interval |
| ZigBee.RootInterval | src/fr/tortevois/zigbee/ZigBee.java:59-70 | The root's children interval is (depth 0, low 1, upper N − d, step (N − 1 − d) / g) |
| ZigBee.IsBetween | src/fr/tortevois/zigbee/ZigBee.java:217-219 | The half-open test [min, max): true only on a non-empty range, false at max, true at min iff the range is not empty |
| ZigBee.Sizes423 | src/fr/tortevois/zigbee/ZigBee.java:41-47 | For (4, 2, 3) the sub-tree sizes are 43, 19 and 7 |
| ZigBee.Example423 | src/fr/tortevois/zigbee/ZigBee.java:59-117 | For (4, 2, 3): 43 addresses, first ring at 1 and 20 with step 19, and the intervals of gateways 1 and 20 |
| ZigBee.ExampleInfo423Gateway9 | src/fr/tortevois/zigbee/ZigBee.java:129-207 | Address 9 is a gateway at depth 2 under gateway 1 |
| ZigBee.ExampleInfo423Gateway20 | src/fr/tortevois/zigbee/ZigBee.java:129-207 | Address 20 is a gateway at depth 1 under the root |
| ZigBee.ExampleInfo423Device39 | src/fr/tortevois/zigbee/ZigBee.java:129-207 | Address 39 is a device of the root |
| ZigBee.GetNextTreeInterval | src/fr/tortevois/zigbee/ZigBee.java:59-117 | An address at or past the count is out of range; a negative one gets the root interval; otherwise the loop returns the children interval of the address's owner, whose depth is the gateway's depth |
| ZigBee.GetNodeInformation | src/fr/tortevois/zigbee/ZigBee.java:129-207 | Out of range exactly at or past the count; otherwise the loop returns Info (parent, depth, type) of the address; a negative address gets (0, 1, 0) as the code's loop leaves it |
| TreeBrowse.Count | src/fr/tortevois/_bootloader/ZigBeeTestBootloader.java:80-87 | An address is checked at most as many times as there are checks |
| TreeBrowse.CountAppend | src/fr/tortevois/_bootloader/ZigBeeTestBootloader.java:59-78 | Checks of two successive loops add up |
| TreeBrowse.DeviceChecks | src/fr/tortevois/_bootloader/ZigBeeTestBootloader.java:68-70 | The device loop checks addresses in its range, each as a device of the browsed node one level down |
| TreeBrowse.DeviceCount | src/fr/tortevois/_bootloader/ZigBeeTestBootloader.java:68-70 | The device loop checks each address of its range exactly once and nothing else |
| TreeBrowse.Browse | src/fr/tortevois/_bootloader/ZigBeeTestBootloader.java:59-78 | Browsing a node at depth k checks only addresses at depths k + 1 to D |
| TreeBrowse.GatewayChecks | src/fr/tortevois/_bootloader/ZigBeeTestBootloader.java:72-77 | The gateway loop of a node at depth k checks only addresses at depths k + 1 to D |
| TreeBrowse.Subtree | src/fr/tortevois/_bootloader/ZigBeeTestBootloader.java:74-76 | The recursion below a child gateway checks only depths k + 2 to D: it never goes past the last level |
| TreeBrowse.GatewayChecksUnfold | src/fr/tortevois/_bootloader/ZigBeeTestBootloader.java:72-77 | The gateway loop stops at the start of the devices; before it, it checks the gateway, browses below it and moves one block on |
| TreeBrowse.BrowseSound | src/fr/tortevois/_bootloader/ZigBeeTestBootloader.java:59-87 | Every check made while browsing a sub-tree lies in it and expects exactly what getNodeInformation says |
| TreeBrowse.SubtreeSound | src/fr/tortevois/_bootloader/ZigBeeTestBootloader.java:72-77 | The recursive browse of a gateway is made only above the leaves, and its checks lie in and agree with that gateway's sub-tree |
| TreeBrowse.GatewaySound | src/fr/tortevois/_bootloader/ZigBeeTestBootloader.java:72-77 | The gateway loop's checks lie in the gateway part of the interval and agree with getNodeInformation |
| TreeBrowse.StepInside | src/fr/tortevois/_bootloader/ZigBeeTestBootloader.java:72-77 | A gateway block of the loop lies after its parent and ends before the devices start |
| TreeBrowse.BrowseCount | src/fr/tortevois/_bootloader/ZigBeeTestBootloader.java:59-78 | Browsing a sub-tree checks each of its addresses except its root exactly once, and nothing outside it |
| TreeBrowse.SubtreeCount | src/fr/tortevois/_bootloader/ZigBeeTestBootloader.java:72-77 | Checking a gateway and recursing below it covers exactly its block |
| TreeBrowse.GatewayCount | src/fr/tortevois/_bootloader/ZigBeeTestBootloader.java:72-77 | The gateway loop from a block start covers each address up to the devices exactly once |
| TreeBrowse.TreeCheckSucceeds | src/fr/tortevois/_bootloader/ZigBeeTestBootloader.java:22-57 | The test succeeds for every valid (d, g, D): every address 1..N−1 is checked exactly once, each check passes, so the tree map ends empty |
| Utils.Pieces | src/fr/tortevois/utils/Utils.java:125-135 | Splitting on single spaces gives at least one piece |
| Utils.Split | src/fr/tortevois/utils/Utils.java:115-126 | `String.split(" ")`: a line without a space is its own single token; otherwise the tokens are the pieces between spaces up to the last non-empty one |
| Utils.PiecesJoin | src/fr/tortevois/utils/Utils.java:125-135 | Joining the pieces with single spaces gives the line back, and no piece holds a space |
| Utils.DropTrailingEmpty | src/fr/tortevois/utils/Utils.java:125-135 | As String.split does, only trailing empty pieces are removed, all of them |
| Utils.SpacesSplitToNothing | src/fr/tortevois/utils/Utils.java:114-117 | A line of spaces only splits to nothing, so `command[0]` in parseCommand is out of bounds (an exception nobody catches) |
| Utils.EmptyPiecesFromSpaces | src/fr/tortevois/utils/Utils.java:125-135 | A line whose pieces between spaces are all empty is made of spaces only |
| Utils.NoCommandExactlyForSpaces | src/fr/tortevois/utils/Utils.java:114-117 | parseCommand finds no word exactly when the line is non-empty and made of spaces only |
| Utils.AllPiecesEmpty | src/fr/tortevois/utils/Utils.java:125-135 | A line of spaces splits into empty pieces only |
| Utils.DropAllEmpty | src/fr/tortevois/utils/Utils.java:125-135 | Dropping trailing empty pieces of all-empty pieces leaves nothing |
| Utils.SplitTokens | src/fr/tortevois/utils/Utils.java:125-135 | A split line is a prefix of its pieces ending in a non-empty token, and no token holds a space |
| Utils.ParseCommand | src/fr/tortevois/utils/Utils.java:114-117 | The command is the first token of the split line, absent exactly when the split line is empty |
| Utils.ParseArgs | src/fr/tortevois/utils/Utils.java:125-135 | The arguments are the tokens after the first, none when there is at most one token |
| Utils.CommandThenArgs | src/fr/tortevois/utils/Utils.java:114-135 | Command followed by arguments is the whole split line |
| Utils.PiecesExample | src/fr/tortevois/utils/Utils.java:125-135 | "free  5 " splits on single spaces into "free", "", "5", "" |
| Utils.PiecesOfWord | src/fr/tortevois/utils/Utils.java:125-126 | A word without spaces in front of a string joins the first piece of that string; the other pieces are unchanged |
| Utils.SplitExamples | src/fr/tortevois/utils/Utils.java:125-135 | Trailing empty tokens are dropped, inner ones kept; the empty line splits to one empty token |
| Utils.ParseInt | src/fr/tortevois/utils/Utils.java:67-74 | Integer.parseInt accepts a sign then digits, and only values in the 32-bit range |
| Utils.IsNaN | src/fr/tortevois/utils/Utils.java:67-74 | The empty string is not a number, and a number always ends with a digit |
| Utils.DigitsRoundTrip | src/fr/tortevois/utils/Utils.java:67-74 | The decimal digits of a natural number read back to it |
| Utils.ParseIntRoundTrip | src/fr/tortevois/utils/Utils.java:67-74 | Every 32-bit integer printed in decimal parses back to itself, so it is not NaN |
| Utils.AllIsNaN | src/fr/tortevois/utils/Utils.java:67-74 | "all" is not a number |
| Utils.PrintTitle | src/fr/tortevois/utils/Utils.java:53-59 | The banner is "-- title " padded with dashes to 51 characters, or no padding when the title is longer |
| Products.ExactlyQuantityRetrieves | src/fr/tortevois/distributor/Product.java:73-79 | From a shelf of q items exactly q retrievals succeed, after which the shelf is empty and every further one fails |
| Products.Product.constructor | src/fr/tortevois/distributor/Product.java:25-30 | A product holds the id, name, price and quantity it is built with |
| Products.Product.RetrieveOne | src/fr/tortevois/distributor/Product.java:73-79 | Available iff the shelf is not empty; then one item is taken, otherwise nothing changes; the quantity never becomes negative |
| Products.Product.ItemMenu | src/fr/tortevois/distributor/Product.java:84-88 | A product is listed in the menu iff its quantity is positive, with its id and quantity |
| Vending.AlertAfter | src/fr/tortevois/distributor/Distributor.java:401-420 | No alert iff stock ≥ 2 and money ≤ limit; the money alert only when the stock is not low |
| Vending.SalesUntilEmpty | src/fr/tortevois/distributor/Distributor.java:401-420 | From q items, n ≤ q sales leave q − n items and add n prices to the till; more than q sales fail |
| Vending.StockAlertBeforeMoneyAlert | src/fr/tortevois/distributor/Distributor.java:401-420 | Two sales at 30.00: both raise the stock alert (the second although the till is over 50.00), the third fails |
| Vending.FindId | src/fr/tortevois/distributor/Distributor.java:401-403 | Finds a product with the id, or reports that none has it |
| Vending.StartupAfter | src/fr/tortevois/distributor/Distributor.java:93-122 | The node starts iff a reply_get_node_id frame gave an address ≥ 1; it then announces itself and listens on 6000 + address |
| Vending.ListNodesId | src/fr/tortevois/distributor/Distributor.java:224-231 | The target list, element by element cast to a 32-bit int; unchanged when every target fits |
| Vending.ListedIds | src/fr/tortevois/distributor/Distributor.java:224-231 | As many ids as targets |
| Vending.Distributor.constructor | src/fr/tortevois/distributor/Distributor.java:54-127 | A node with its address and sorted catalogue and an empty till |
| Vending.Distributor.RetrieveOneProduct | src/fr/tortevois/distributor/Distributor.java:401-420 | Unknown product or empty shelf change nothing; otherwise one item leaves the shelf, the price enters the till, and the stock alert or else the money alert is logged; other shelves unchanged |
| Vending.Distributor.StockArrays | src/fr/tortevois/distributor/Distributor.java:422-434 | Ids and quantities of the catalogue as parallel arrays, in increasing id order |
| Vending.Distributor.Reply | src/fr/tortevois/distributor/Distributor.java:254-275 | Status 200; the till for a money query; otherwise this node's ids and quantities in increasing id order |
| Vending.Distributor.MessageProcessing | src/fr/tortevois/distributor/Distributor.java:179-216 | A target node answers a money or stock query with its reply; any other request gets a bad request (status 400) |
| Protocol.CountsAppend | src/fr/tortevois/distributor/DistributorGateway.java:212-255 | Counts of sends add up over successive loops |
| Protocol.AnyTargetIn | src/fr/tortevois/distributor/DistributorGateway.java:263-286 | hasChildrenQuery: true iff some target lies in [lo, hi) |
| Protocol.ToInt32 | src/fr/tortevois/distributor/Distributor.java:224-231 | The (int) cast of a long: in the 32-bit range, equal modulo 2^32, identity on values that fit |
| Tables.Keys | src/fr/tortevois/server/DistributorManager.java:142-144 | One key per entry |
| Tables.ViewAt | src/fr/tortevois/distributor/DistributorGateway.java:125-144 | Each entry of a sorted table is in its map with its value |
| Tables.ViewIndex | src/fr/tortevois/distributor/DistributorGateway.java:125-144 | Each key of the map is at some entry |
| Tables.KeysOfView | src/fr/tortevois/server/DistributorManager.java:142-144 | keySet() lists exactly the keys of the map |
| Tables.ViewSnoc | src/fr/tortevois/distributor/DistributorGateway.java:91-118 | Appending a larger key adds exactly that binding |
| Tables.PutAbove | src/fr/tortevois/distributor/DistributorGateway.java:91-118 | put of a key above a bound keeps every key above it |
| Tables.PutView | src/fr/tortevois/server/DistributorManager.java:294-306 | TreeMap.put keeps the table sorted and updates exactly the one binding |
| Tables.PutSorted | src/fr/tortevois/server/DistributorManager.java:294-306 | TreeMap.put keeps the keys strictly increasing |
| Tables.HasKeySnoc | src/fr/tortevois/server/DistributorManager.java:505-516 | A run of puts has put key k iff its front did or its last put does |
| Tables.PutAppends | src/fr/tortevois/distributor/DistributorGateway.java:91-118 | put of a key above all others appends it |
| Tables.PutsKeys | src/fr/tortevois/server/DistributorManager.java:453-484 | After a run of puts a key is present iff it was or was put; keys not put keep their value |
| Tables.PutsLastWins | src/fr/tortevois/server/DistributorManager.java:453-484 | The last put of a key decides its value |
| Tables.RingSnoc | src/fr/tortevois/distributor/DistributorGateway.java:106-108 | The ring loop adds one more gateway address per step |
| Tables.RingAt | src/fr/tortevois/distributor/DistributorGateway.java:106-108 | The ring over n steps has n addresses, the j-th at low + j·step |
| Tables.RingSplit | src/fr/tortevois/distributor/DistributorGateway.java:106-108 | Once the ring up to the loop counter i has grown by i, the split of the whole ring moves one point from the part still to seed to the part seeded |
| Tables.SeedView | src/fr/tortevois/distributor/DistributorGateway.java:91-118 | Seeding puts each listed address as not connected and leaves the others unchanged |
| Tables.SeedAbove | src/fr/tortevois/distributor/DistributorGateway.java:91-118 | Seeding addresses above a bound keeps every key above it |
| Tables.SeedRing | src/fr/tortevois/server/DistributorManager.java:359-376 | The setAvailableNodesID loop seeds exactly the ring addresses |
| Tables.SeedRingStep | src/fr/tortevois/distributor/DistributorGateway.java:106-108 | Seeding one more ring address puts it as not connected into the table seeded so far |
| Tables.SeedRingTurn | src/fr/tortevois/distributor/DistributorGateway.java:106-108 | One turn of the seeding loop: the counter stays on the ring, the table is the ring seeded one step further, and the ring still splits at the counter |
| Tables.SeededRing | src/fr/tortevois/distributor/DistributorGateway.java:101-108 | Seeding an empty table with the ring of n addresses from low with step s gives exactly the entries (low + j·s, not connected), j < n, in order |
| Tables.Fresh | src/fr/tortevois/distributor/DistributorGateway.java:91-118 | One not-connected entry per address |
| Tables.SeedEmpty | src/fr/tortevois/distributor/DistributorGateway.java:91-118 | Seeding an empty table with increasing addresses gives them all, not connected, in order |
| Tables.RingIncreasing | src/fr/tortevois/distributor/DistributorGateway.java:106-108 | Ring addresses increase and stay within [low, upper) |
| Tables.FindFirstFree | src/fr/tortevois/distributor/DistributorGateway.java:125-144 | The loop stops at the first free entry, or finds none free |
| Tables.FirstFreeIsSmallest | src/fr/tortevois/distributor/DistributorGateway.java:125-144 | The first free entry has the smallest free address |
| Tables.Allocate | src/fr/tortevois/server/DistributorManager.java:153-163 | Allocation marks the first free address taken, or finds none |
| Tables.AllocatedView | src/fr/tortevois/server/DistributorManager.java:153-163 | An allocated address was free and is the smallest free one, and becomes taken, nothing else changes; no allocation means every address is taken |
| Tables.NoneFreeView | src/fr/tortevois/server/DistributorManager.java:153-163 | No free entry means every address of the map is taken |
| Gateway.TreeInterval | src/fr/tortevois/distributor/DistributorGateway.java:91-118 | A gateway's children interval: depth within the tree, gateway blocks of the sub-tree size one level down |
| Gateway.SeedKeepsValid | src/fr/tortevois/distributor/DistributorGateway.java:91-118 | Seeding with a ring of positive addresses keeps the table sorted and above 0 |
| Gateway.SendTo | src/fr/tortevois/distributor/DistributorGateway.java:294-301 | One datagram when the address is a registered client, none otherwise |
| Gateway.ReplyNotConnected | src/fr/tortevois/distributor/DistributorGateway.java:362-368 | A not-connected frame about the address, sent up to the parent |
| Gateway.NotConnectedStatus | src/fr/tortevois/distributor/DistributorGateway.java:362-368 | A not-connected reply is a well-formed reply_get_stock frame with status 404 |
| Gateway.Broadcast | src/fr/tortevois/distributor/DistributorGateway.java:212-255 | The node's own reply comes first when it is a target; with no target in the children range nothing else is sent |
| Gateway.ForwardCounts | src/fr/tortevois/distributor/DistributorGateway.java:231-253 | One entry gets a not-connected reply when disconnected, or one datagram on its port when connected and registered |
| Gateway.DeviceSendsCount | src/fr/tortevois/distributor/DistributorGateway.java:230-240 | The device loop: each targeted device gets a not-connected reply if disconnected, or one datagram if connected and registered; nothing else |
| Gateway.SendsStep | src/fr/tortevois/distributor/DistributorGateway.java:230-253 | One table entry of either loop adds a not-connected reply for its own key when disconnected, one datagram to its own port when connected and registered, only when concerned, and nothing sent upward |
| Gateway.EntryCountStep | src/fr/tortevois/distributor/DistributorGateway.java:231-253 | One more table entry: the count of not-connected replies and of datagrams for child k grows by one exactly when the entry is k and concerned, matching the table with that entry added |
| Gateway.GatewaySendsCount | src/fr/tortevois/distributor/DistributorGateway.java:242-253 | The gateway loop: each child gateway whose block holds a target is handled once, however many targets its block holds |
| Gateway.BroadcastCounts | src/fr/tortevois/distributor/DistributorGateway.java:212-255 | The node's own reply goes up exactly once iff it is a target; children are reached only when a target lies in the children range, and then each as the two loops say |
| Gateway.LeafAnswersOnlyForItself | src/fr/tortevois/distributor/DistributorGateway.java:113-117 | A leaf gateway (empty children range) only ever answers for itself |
| Gateway.SetupTables | src/fr/tortevois/distributor/DistributorGateway.java:91-118 | A fresh gateway's tables are its g ring addresses low + j·step and its d device addresses upper + j, all not connected |
| Gateway.DistributorGateway.constructor | src/fr/tortevois/distributor/DistributorGateway.java:40-68 | A gateway starts with no parameters, empty tables and no clients |
| Gateway.DistributorGateway.SetAvailableNodesID | src/fr/tortevois/distributor/DistributorGateway.java:91-118 | Exits iff its address is past the count; otherwise seeds its ring and device tables, or a leaf gets the empty range [id, id) |
| Gateway.DistributorGateway.SeedChildren | src/fr/tortevois/distributor/DistributorGateway.java:101-112 | Above the last level, the devices [upper, upper + d) and the ring gateways are put as not connected, the tables stay sorted with positive keys, and the children range is (low, upper + d, step) |
| Gateway.DistributorGateway.GetAvailableNodeID | src/fr/tortevois/distributor/DistributorGateway.java:125-144 | The table of the requested type allocates, the other is untouched; an unknown type gets nothing; addresses given are ≥ 1 |
| Gateway.DistributorGateway.ExecQueryNodeID | src/fr/tortevois/distributor/DistributorGateway.java:308-338 | Exactly one reply_get_node_id to the asker, with the allocated address or −1; the asker is registered iff it got one |
| Gateway.DistributorGateway.BroadcastMessage | src/fr/tortevois/distributor/DistributorGateway.java:212-255 | The sends are exactly the fan-out that BroadcastCounts describes |
| Gateway.DistributorGateway.SendToDevices | src/fr/tortevois/distributor/DistributorGateway.java:230-240 | The device loop's sends |
| Gateway.DistributorGateway.SendToGateways | src/fr/tortevois/distributor/DistributorGateway.java:242-253 | The gateway loop's sends |
| Gateway.DistributorGateway.ParamsReplyTo | src/fr/tortevois/distributor/DistributorGateway.java:345-355 | The parameters go to the asking node on port 6000 + id iff it is registered |
| Gateway.DistributorGateway.MessageProcessing | src/fr/tortevois/distributor/DistributorGateway.java:152-192 | Dispatch per frame kind: address requests allocate, parameter queries are answered, queries fan out, replies and logs go up, parameters are stored, anything else is dropped; tables change only on address requests |
| Manager.RingSendsCount | src/fr/tortevois/server/DistributorManager.java:397-419 | Each connected ring gateway whose block holds a target gets the query exactly once; no reply is made up for disconnected ones |
| Manager.RingSends | src/fr/tortevois/server/DistributorManager.java:397-419 | The ring loop makes at most one call per ring gateway |
| Manager.RingStep | src/fr/tortevois/server/DistributorManager.java:404-417 | One more ring gateway adds one call to itself when it is connected and its block holds a target, and nothing else |
| Manager.Zip | src/fr/tortevois/server/DistributorManager.java:503-508 | One stock entry per product id |
| Manager.Cells | src/fr/tortevois/server/DistributorManager.java:538-546 | One cell per catalogue product |
| Manager.StockRows | src/fr/tortevois/server/DistributorManager.java:534-548 | One row per distributor that replied |
| Manager.StockPairsAppend | src/fr/tortevois/server/DistributorManager.java:493-520 | The buffer is read reply after reply |
| Manager.MoneyPairsAppend | src/fr/tortevois/server/DistributorManager.java:455-466 | The buffer is read reply after reply |
| Manager.StockPairsKeys | src/fr/tortevois/server/DistributorManager.java:493-520 | A distributor gets a stock entry iff some buffered reply comes from it |
| Manager.MoneyPairsKeys | src/fr/tortevois/server/DistributorManager.java:455-466 | A distributor gets a money entry iff some buffered reply comes from it |
| Manager.StockRowsFromReplies | src/fr/tortevois/server/DistributorManager.java:491-553 | The stock table has a row for a distributor iff it replied, and rows come in increasing distributor order |
| Manager.StockLastReplyWins | src/fr/tortevois/server/DistributorManager.java:493-520 | A distributor's row is its last reply's stock |
| Manager.MoneyLastReplyWins | src/fr/tortevois/server/DistributorManager.java:453-484 | A distributor's money is its last reply's, and the table has exactly the distributors that replied |
| Manager.StockOfReply | src/fr/tortevois/server/DistributorManager.java:503-508 | Within one reply, a product's quantity is its last occurrence's |
| Manager.DistributorManager.constructor | src/fr/tortevois/server/DistributorManager.java:66-67 | A manager starts uninitialised with empty tables and no query |
| Manager.DistributorManager.InitDistributorManager | src/fr/tortevois/server/DistributorManager.java:83-110 | Once only: stores the parameters and the address count, empties the tables, logs and query, loads the catalogue and seeds the first ring |
| Manager.DistributorManager.Start | src/fr/tortevois/server/DistributorManager.java:84-106 | The first initialisation sets the parameters, address count, catalogue, ring and children range it is given, with no query in progress, no log and no distributor |
| Manager.DistributorManager.FirstRing | src/fr/tortevois/server/DistributorManager.java:359-376 | The ring is seeded from the root's children interval, sorted |
| Manager.DistributorManager.GetAvailableNodeID | src/fr/tortevois/server/DistributorManager.java:153-163 | Allocates the first free ring gateway and records it as a connected distributor |
| Manager.DistributorManager.FreeNodeID | src/fr/tortevois/server/DistributorManager.java:294-306 | True iff the distributor is known; it is then marked disconnected, and so is the ring gateway of that address when there is one; otherwise nothing changes |
| Manager.DistributorManager.ConnectedDistributors | src/fr/tortevois/server/DistributorManager.java:142-144 | The known distributors, in increasing order |
| Manager.DistributorManager.ReadMessageFromRMI | src/fr/tortevois/server/DistributorManager.java:211-242 | A new node is recorded connected, a log is appended, an expected reply during a query is buffered and counted down; anything else is ignored |
| Manager.DistributorManager.SetQuery | src/fr/tortevois/server/DistributorManager.java:385-389 | Sets the expected reply, the in-progress flag and the count |
| Manager.DistributorManager.SendMessageToRMI | src/fr/tortevois/server/DistributorManager.java:182-203 | A money or stock query expects one reply per target under the matching name and is dispatched into the ring; anything else does nothing |
| Manager.DistributorManager.BroadcastMessage | src/fr/tortevois/server/DistributorManager.java:397-419 | The dispatch is RingSends, whose counts RingSendsCount gives |
| Manager.DistributorManager.ExecReplyGetMoney | src/fr/tortevois/server/DistributorManager.java:453-484 | The money table built from the buffered replies in order |
| Manager.DistributorManager.StockOfMessage | src/fr/tortevois/server/DistributorManager.java:495-516 | One reply's stock map |
| Manager.DistributorManager.RowCells | src/fr/tortevois/server/DistributorManager.java:538-546 | One row: each catalogue product's quantity, or "-" when missing |
| Manager.DistributorManager.ExecReplyGetStock | src/fr/tortevois/server/DistributorManager.java:491-553 | The stock table built from the buffered replies in order |
| Manager.DistributorManager.CollectStock | src/fr/tortevois/server/DistributorManager.java:492-521 | The stock table is the stock replies put in arrival order under their distributor |
| Manager.CollectStep | src/fr/tortevois/server/DistributorManager.java:493-517 | One buffered reply: a stock reply puts its stock under its distributor, any other leaves the table unchanged |
| Manager.DistributorManager.Deliver | src/fr/tortevois/server/DistributorManager.java:211-242 | Reading the frames of a batch in turn: announcements mark their node connected and logs are appended in order; during a query exactly the replies under the expected name are appended to the buffer and counted down one each; outside a query buffer and count stay |
| Manager.DeliverStep | src/fr/tortevois/server/DistributorManager.java:211-242 | A frame read after a run of frames, as readMessageFromRMI handles it, extends the buffer, count, distributor table and logs exactly as the whole run with that frame describes |
| Manager.Matching | src/fr/tortevois/server/DistributorManager.java:232-236 | The replies a run of frames adds to the buffer: no more than the frames, each under the expected name |
| Manager.FixedKinds | src/fr/tortevois/server/DistributorManager.java:218-230 | The two fixed frame names are exactly the announcement and the log frames |
| Manager.MatchingAppend | src/fr/tortevois/server/DistributorManager.java:232-236 | The replies buffered from two successive runs of frames add up |
| Manager.AnnounceAppend | src/fr/tortevois/server/DistributorManager.java:219-223 | The announcements of two successive runs of frames apply one after the other |
| Manager.LogLinesAppend | src/fr/tortevois/server/DistributorManager.java:225-230 | The logs of two successive runs of frames add up |
| Manager.PolledStep | src/fr/tortevois/server/DistributorManager.java:278-280 | What n + 1 sleeps brought is what n sleeps brought followed by the n-th batch, for the buffer, the count, the distributor table and the logs |
| Manager.KeptWaitingStep | src/fr/tortevois/server/DistributorManager.java:256 | A check that finds the count not reached extends the run of checks that kept waiting |
| Manager.NextCheck | src/fr/tortevois/server/DistributorManager.java:278-280 | A sleep taken before the timeout adds 250 ms and leaves the elapsed time at most 15000 ms |
| Manager.DistributorManager.EndQuery | src/fr/tortevois/server/DistributorManager.java:256-275 | The report is built from the buffered replies and the query state is reset |
| Manager.DistributorManager.WaitForEndQuery | src/fr/tortevois/server/DistributorManager.java:249-285 | Without a query nothing changes. Otherwise, after polls sleeps of 250 ms (at most 15000 ms): the report is on the replies buffered before plus the expected replies that came in; it stopped at the first check that found every reply in or at 15000 ms, no earlier check having found them; then no query, empty buffer, zero count; announcements and logs recorded as they came |
| Manager.DistributorManager.Poll | src/fr/tortevois/server/DistributorManager.java:251-284 | The polling loop ends with no query in progress, in the state the checks and sleeps so far describe |
| Manager.DistributorManager.Finish | src/fr/tortevois/server/DistributorManager.java:256-276 | A check that finds the count at zero or the time out ends the query with the report on the buffered replies |
| Manager.DistributorManager.Sleep | src/fr/tortevois/server/DistributorManager.java:278-280 | A check that finds replies missing before the time out sleeps 250 ms and reads the next batch, still waiting |
| Manager.DistributorManager.ReadBatch | src/fr/tortevois/server/DistributorManager.java:211-242 | The frames of one more sleep are read on top of those of the earlier sleeps |
| Manager.DistributorManager.DisplayLogsHistory | src/fr/tortevois/server/DistributorManager.java:313-321 | The logs, or the no-logs line when there are none |
| Manager.FirstRing423 | src/fr/tortevois/server/DistributorManager.java:153-163 | For (4, 2, 3) the ring is {1, 20}; the first two allocations give 1 then 20, the third finds none |
| Manager.NoTargetNoSend | src/fr/tortevois/server/DistributorManager.java:397-419 | No target, no call |
| Manager.FreeKeepsKeys | src/fr/tortevois/server/DistributorManager.java:294-306 | Freeing keeps the known addresses and marks the freed one disconnected |
| Manager.PutKeepsKeys | src/fr/tortevois/server/DistributorManager.java:294-306 | Updating a known address keeps the key list |
| Admin.Lookup | src/fr/tortevois/admin/AdminInterface.java:103-119 | The handler of the first word; none when the word is unknown (a line with no word fails in parseCommand first) |
| Admin.HelpListsEveryCommand | src/fr/tortevois/admin/AdminInterface.java:259-282 | Every command has a help line starting with its name |
| Admin.ArgId | src/fr/tortevois/admin/AdminInterface.java:238-249 | An argument names at most one node: a number strictly between 0 and the address count |
| Admin.NamedIds | src/fr/tortevois/admin/AdminInterface.java:236-250 | At most one node per argument |
| Admin.NamedIdsExactly | src/fr/tortevois/admin/AdminInterface.java:236-250 | A node is named iff some argument parses to it and it lies in (0, count) |
| Admin.NamedIdsInTree | src/fr/tortevois/admin/AdminInterface.java:236-250 | Every named node lies strictly inside the address range |
| Admin.NamedIdsAppend | src/fr/tortevois/admin/AdminInterface.java:236-250 | Arguments are read in order |
| Admin.NamedIdsSnoc | src/fr/tortevois/admin/AdminInterface.java:236-250 | One more argument appends the id it names, if any, at the end of the list |
| Admin.ParsesSnoc | src/fr/tortevois/admin/AdminInterface.java:236-250 | Some argument parses to x iff some earlier one does or the last one does |
| Admin.ArgIdExamples | src/fr/tortevois/admin/AdminInterface.java:238-249 | "3" names 3; "all", "43" and "0" name nothing in a 43-address tree |
| Admin.NamedIdsExample | src/fr/tortevois/admin/AdminInterface.java:224-252 | Duplicates are kept; "all" alone means every known distributor; "all" among others is ignored |
| Admin.PadRight | src/fr/tortevois/admin/AdminInterface.java:126-131 | Left-justified padding with spaces to the width |
| Admin.HelpLine | src/fr/tortevois/admin/AdminInterface.java:126-131 | "- " and the usage, then the description at column 33 when the usage fits in 30 |
| Admin.PrintHelp | src/fr/tortevois/admin/AdminInterface.java:126-131 | The title "-- Available command-line list " filled with '-' up to 51 characters, then one line per command in sorted order, each its help line |
| Admin.HelpTextUnique | src/fr/tortevois/admin/AdminInterface.java:126-131 | The help layout fixes the text: two texts of that layout are equal, so PrintHelp's contract determines its lines |
| Admin.HelpAligned | src/fr/tortevois/admin/AdminInterface.java:126-131 | Every description starts at column 33 |
| Admin.AdminInterface.constructor | src/fr/tortevois/admin/AdminInterface.java:39-53 | The console reads the address count from its manager |
| Admin.AdminInterface.GetNodesIDFromArgs | src/fr/tortevois/admin/AdminInterface.java:224-252 | "all" alone gives the known distributors, otherwise the nodes the arguments name |
| Admin.AdminInterface.AskNodes | src/fr/tortevois/admin/AdminInterface.java:138-152 | With arguments naming nodes, the manager starts the query expecting one reply per node; otherwise nothing happens |
| Admin.AdminInterface.FreeNodesID | src/fr/tortevois/admin/AdminInterface.java:159-179 | One answer per selected node (the nodes the arguments name, or every known distributor for "all"), each whether the manager knew it; the tables end as freeing them in turn leaves them |
| Admin.AdminInterface.FreeEach | src/fr/tortevois/admin/AdminInterface.java:165-177 | Known nodes end disconnected, the sets of known addresses stay the same, others are unchanged |
| Admin.AdminInterface.FreeOne | src/fr/tortevois/admin/AdminInterface.java:166-177 | One address: the answer is whether the manager knew it, and the tables are as freeing the earlier addresses and this one leaves them |
| Admin.FreeStep | src/fr/tortevois/admin/AdminInterface.java:166-177 | Freeing one more address: a known one becomes not connected in the distributor table and, when a ring gateway, in the ring table; an unknown one changes nothing |
| Admin.AdminInterface.ExecQuery | src/fr/tortevois/admin/AdminInterface.java:103-119 | A line of spaces only gives NoCommand (the uncaught index error); an unknown word, CommandNotFound; get_money/get_stock start the query for the named nodes and dispatch it, or do nothing without one; free gives the answers and freed tables; help the help text; logs the logs; only that handler changes the manager |

## Left out

- Transport is not modelled: Java RMI, UDP sockets, listening threads and `SendingSocket`. A send is an `Action` returned by the operation, and a received frame is a parameter.
- JSON encoding and parsing are not modelled; frames are the `Message` datatype. A frame that fails to parse is logged and dropped by the code, and the model has no such frame.
- Concurrency is not modelled: the listening threads, `AtomicBoolean`/`AtomicInteger`, and `Thread.sleep`.
- Manager.DistributorManager.SendMessageToRMI: the spin-wait for the end of the previous query is a precondition, `!inProgress`.
- Manager.DistributorManager.WaitForEndQuery: the replies arriving during each 250 ms sleep are a parameter (`arrivals`), not a concurrent reader.
- Prices and money are integer cents, not `float`/`double`.
- Formatting with `%3.2f` and the currency symbol is not modelled.
- Java `int` overflow is not modelled: addresses, counts and money are unbounded integers. The exception is the `(int)` cast of JSON longs in the target list (`Protocol.ToInt32`).
- ZigBee.AddressCount: the `Math.pow` double computation of the code is taken as exact. This holds for realistic parameters and is not modelled for huge ones.
- Files, CSV loading and console I/O are left out. The catalogue and the product list are parameters.
- Screen clearing, menus, the loading animation and debug traces are left out.
- Manager.DistributorManager.ExecReplyGetStock and ExecReplyGetMoney return the table as data. The text layout of the tables (column widths of `printQuantity`, the `%-18s` headers) is not modelled.
- Manager.DistributorManager.WaitForEndQuery: the "Request timeout" line is not modelled, and neither is the printing of the report to the admin.
- The test bootloader's `drawTheTree` is not modelled; it only prints.
- Utils.ParseInt accepts ASCII digits only. `Integer.parseInt` also accepts other Unicode decimal digits.
- Vending.Distributor.RetrieveOneProduct: the log text is the message alone. The date prefix `buildLog` adds from the clock is not modelled.
- Gateway.DistributorGateway.constructor: parameters that are still `null` before the network-parameters reply are modelled as `(0, 0, 0)`.
- Manager.DistributorManager.constructor: tables that are still `null` before `initDistributorManager` are modelled as empty.
- Gateway.DistributorGateway.ExecQueryNodeID: an `UnknownHostException` on the reply address is not modelled; the address is an opaque string.
- The `System.exit` paths are modelled as an outcome: `Vending.StartupAfter` gives `Exit`, and `SetAvailableNodesID` returns `exits`. Process termination itself is not modelled.
- ZigBee: the model requires g ≥ 1 and D ≥ 1 (`Params.Valid`). The bootloaders do not check this; with g = 0 the code divides by zero.
- The manager's RMI `getAddressCount` and `getNetworkParameters` getters are not modelled. The admin reads the manager's `addressCount` field directly.
- The reflection failures of `execQuery` (`NoSuchMethodException` and the like) are not modelled; every handler in the table exists.
- Admin.AdminInterface.ExecQuery: the outcome of `get_money`/`get_stock` is the sends. The console's wait for the end of the query and its display are modelled by `Manager.DistributorManager.WaitForEndQuery`.
- The distributor's interactive purchase menu (`getChoicesMenu`) is left out; a purchase is `Vending.Distributor.RetrieveOneProduct`.
- The RMI gateway bridge (`RmiGateway`) and the UDP gateway (`UdpGateway`) are not part of this model.
