# Verified model of the OPC UA gateway

The gateway connects OPC UA servers and clients to data providers. Values cross it in three
languages: the variants of the UA SDK, the internal interface, and the binary protocol. This
project models the parts of the gateway that decide what happens to values, subscriptions and type
information, and proves what those parts promise.

- **Value conversion.** `UaConversion` and `BinaryConversion` say what the two recursive converters
  compute; `ConverterUa2IO` and `ConverterBin2IO` compute it with the loops of the source.
  `BinaryRoundTrip`, `RoundTrips` and `ClientConversion` prove exactly which values survive which
  trip: UA to internal and back, internal to binary and back, binary to internal and back, and the
  client's four-leg trip from a UA server over the binary protocol and back. Each is an
  if-and-only-if over values of any nesting. `ConversionMeaning` says what one conversion makes of a
  value where a round trip would not show it: type ids, fields, tags, accepted types, widths.
- **Subscriptions.** `Subscriptions` specifies each step of the client's subscription against a
  server whose answers are arbitrary; the class in `HaSubscriptionClass` performs the steps in
  place; `SubscriptionRuns` proves what every run keeps, and `SubscriptionAnswers` what single
  requests and notifications answer.
- **Graph walks.** `VariableWalk`, `ObjectTypeWalk` and `EventTypeSearch` walk address spaces that
  may contain cycles; `SuperTypes` lists super types in the session's and in the node browser's way;
  `EventFieldCollection` and `EventTypeRegistryClass` resolve overridden event fields on the two
  sides of the gateway; `EventRegistration` joins them, from the walks over the loop that registers
  event types to what the client browses, and `EventRegistrationExample` shows an address space in
  which they agree after one walk and disagree after another.
- **Caches and indexes.** `CachedConverterCallbackClass` and `CachedConversion` say which lookups a
  conversion makes and when a preloaded type has them all; `FieldModels` builds and resolves the field model.
- **Smaller cores.** `ParamIds` prints and parses node ids, `Reconnect` retries a connection,
  `LoggerFactories` stacks logger factories.

Everything that comes from the SDK, from a server or from a clock is a parameter: type information
is a pair of maps (`TypeEnv`), an address space is a finite graph, and each server call takes an
arbitrary answer. Exceptions are `Failure` results (or a Boolean), without their texts.

## What the proofs show about the code

- The checks before a number becomes a `UInt16` or `UInt32` read `v < 2 ^ 15` and `v < 2 ^ 31`, but
  `^` is exclusive or. No non-negative number is refused, and numbers that do not fit the type wrap
  around (`ClientConversion.UnsignedDestinations`).
- On the way back a scalar is written by the number of its built-in type alone; the namespace, which
  is checked on the way in, is not looked at (`ConversionMeaning.ScalarByNumber`,
  `ConversionMeaning.ForeignTypeRefused`).
- Arrays of negative 32 bit numbers are written to `UInt16` without the check that single numbers get
  (`ConversionMeaning.ArrayWritten`).
- A `remove` request that names all entries, one of them twice, can empty the table and leave the
  subscription behind; `SubscriptionRuns.RemoveTightExactly` says exactly when.
- `removeAll` empties the table exactly when no node is monitored twice
  (`SubscriptionRuns.RemoveAllEmpties`).
- Preloading stops at namespace 0. To the internal interface, a value is then converted from the
  cache alone exactly if it meets no field of type `Structure` or `Union` of namespace 0
  (`CachedConversion.PreloadedExactly`). On the way back, the form of the value decides: it must have
  the form of a structure only where the type is a loaded vendor structure, so a field of a concrete
  standard structure such as `Range` cannot be written from the cache
  (`CachedConversion.PreloadedExactlyBack`, `CachedConversion.RangeIsNotLoaded`).
- An event type is registered under the parent below which a walk first met it. If that is not its
  super type, client and server agree only on some names (`EventFieldCollection.OtherParentExactly`,
  `EventRegistration.TableDisagrees`, `EventRegistrationExample.Disagreement`).
- Resubscription keeps event fields exactly if all entries of a node have the same ones
  (`SubscriptionRuns.ResubscriptionKeepsFieldsExactly`).
- The field model takes the number of a vendor type without standard ancestor for the number of a
  standard type (`FieldModels.ModelAgreesWithConverters`, `FieldModels.VendorTypeTakenForInt32`).
- A logger factory that is constructed twice breaks the factory stack
  (`LoggerFactories.DestructionExact`, `LoggerFactories.RepeatedFactory`).
- With a longest reconnect delay of zero the retry loop need not end (`Reconnect.NoDelayNoEnd`).

## Model

| member | source | states |
|---|---|---|
| ClientConversion.ReadThenWrite | src/binaryServer/Client.cpp:1075-1094 | reading a UA value and writing it back through the binary protocol yields the same value exactly if it is safe for the wire, for every value and type |
| ClientConversion.UnsignedDestinations | src/sasModelProvider/base/ConverterUa2IO.cpp:939-990 | unsigned destinations accept every non-negative number, and a `UInt32` even every 32 bit number unchecked; each keeps exactly those that fit the type |
| ClientConversion.ConvertUa2Bin | src/binaryServer/Client.cpp:1086-1094 | composes the two outgoing converters; fails if either does |
| ClientConversion.ConvertBin2Ua | src/binaryServer/Client.cpp:1075-1084 | composes the two incoming converters; fails if either does |
| RoundTrips.UaRoundTrip | src/sasModelProvider/base/ConverterUa2IO.cpp:208-257 | on both routes, direct and over the wire, a value returns unchanged if and only if it is in the safe set |
| RoundTrips.StructRoundTrip | src/sasModelProvider/base/ConverterUa2IO.cpp:707-785 | a structure returns exactly if each declared field that is set returns and each one that is not set is optional |
| RoundTrips.UnionRoundTrip | src/sasModelProvider/base/ConverterUa2IO.cpp:1101-1208 | a union over a declared field, or over none, returns exactly if its member does |
| RoundTrips.StructureArrayRoundTrip | src/sasModelProvider/base/ConverterUa2IO.cpp:1300-1318 | an array of structures returns exactly if all elements do |
| RoundTrips.ScalarArrayRoundTrip | src/sasModelProvider/base/ConverterUa2IO.cpp:1210-1298 | which arrays of scalars return, with the tag that the wire gives them |
| RoundTrips.SimpleRoundTrip | src/sasModelProvider/base/ConverterUa2IO.cpp:259-705 | which scalars return; a Variant never does |
| RoundTrips.BoundNeverRejects | src/sasModelProvider/base/ConverterUa2IO.cpp:952-980 | the exclusive-or bounds hold of every number |
| UaValues.CollectedFields | src/sasModelProvider/base/ConverterUa2IO.cpp:735-760 | the fields loop stated without the loop: with distinct names each field comes from its own child and nothing else is in the result |
| ConversionMeaning.StructureKeepsType | src/sasModelProvider/base/ConverterUa2IO.cpp:711-762 | a converted structure carries the id of its data type, namespace included |
| ConversionMeaning.SentStructureKeepsType | src/sasModelProvider/base/ConverterUa2IO.cpp:711-762 | the structure that is sent still does, whatever the namespace of the receiver |
| ConversionMeaning.StructureFields | src/sasModelProvider/base/ConverterUa2IO.cpp:734-760 | a structure shows the set fields of its definition, each by the type of its child, and nothing else; it fails exactly if a mandatory field is not set or a field fails |
| ConversionMeaning.UnionFields | src/sasModelProvider/base/ConverterUa2IO.cpp:725-732 | a union shows its one declared field, or none |
| ConversionMeaning.StructureFromFields | src/sasModelProvider/base/ConverterUa2IO.cpp:1156-1181 | the way back builds a structure of the destination type from exactly the declared fields |
| ConversionMeaning.UnionFromFields | src/sasModelProvider/base/ConverterUa2IO.cpp:1116-1155 | the way back builds an empty union from no field, a union from one declared field, and nothing else |
| ConversionMeaning.UndefinedStructure | src/sasModelProvider/base/ConverterUa2IO.cpp:713-713 | a structure without a definition fails both ways |
| ConversionMeaning.ArrayConverted | src/sasModelProvider/base/ConverterUa2IO.cpp:787-842 | an array is converted exactly if its type is among those with an array tag and every element is converted |
| ConversionMeaning.ArrayIsTagged | src/sasModelProvider/base/ConverterUa2IO.cpp:812-842 | an array is tagged with the type its converted elements have |
| ConversionMeaning.ArrayWritten | src/sasModelProvider/base/ConverterUa2IO.cpp:1320-1425 | an array of scalars is written element by element as the scalars are, except that refused negative numbers wrap around |
| ConversionMeaning.ScalarAccepted | src/sasModelProvider/base/ConverterUa2IO.cpp:259-705 | exactly which scalars the switch accepts under which built-in type |
| ConversionMeaning.ScalarKept | src/sasModelProvider/base/ConverterUa2IO.cpp:259-705 | accepted scalars keep their number and text, and what is NULL stays NULL |
| ConversionMeaning.ScalarTaken | src/sasModelProvider/base/ConverterUa2IO.cpp:894-1099 | exactly which scalars a destination takes; what is written has the type of the destination |
| ConversionMeaning.NumberWritten | src/sasModelProvider/base/ConverterUa2IO.cpp:894-1099 | a written number fits its type and is the given one modulo the width |
| ConversionMeaning.TextWritten | src/sasModelProvider/base/ConverterUa2IO.cpp:894-1099 | texts are kept, a text without language becomes English, and an empty byte string becomes NULL |
| ConversionMeaning.ScalarByNumber | src/sasModelProvider/base/ConverterUa2IO.cpp:894-898 | on the way back the namespace of the built-in type does not matter |
| ConversionMeaning.ForeignTypeRefused | src/sasModelProvider/base/ConverterUa2IO.cpp:264-264 | to the internal interface a scalar under a built-in type outside namespace 0 is refused |
| ConversionMeaning.VariantOfScalar | src/sasModelProvider/base/ConverterUa2IO.cpp:651-686 | a Variant of a scalar is converted by the type the scalar is held as |
| ConversionMeaning.VariantOfArray | src/sasModelProvider/base/ConverterUa2IO.cpp:651-686 | a Variant of Variants is converted element by element; of any other array nothing but an empty array is left |
| ConverterUa2IO.ConvertUa2Io | src/sasModelProvider/base/ConverterUa2IO.cpp:208-257 | computes the specified conversion to the internal interface, and fails where it does |
| ConverterUa2IO.ConvertUaBuildInType2Io | src/sasModelProvider/base/ConverterUa2IO.cpp:259-705 | the switch over built-in types, with the loop that copies a byte string |
| ConverterUa2IO.ConvertUaArray2Io | src/sasModelProvider/base/ConverterUa2IO.cpp:787-842 | the array loop converts every element by the type of the array |
| ConverterUa2IO.ConvertUaExtensionObject2Io | src/sasModelProvider/base/ConverterUa2IO.cpp:707-785 | the loop over the definition's children collects exactly the set fields, or the one field of a union |
| ConverterUa2IO.ConvertIo2Ua | src/sasModelProvider/base/ConverterUa2IO.cpp:844-1099 | computes the specified conversion to the destination data type |
| ConverterUa2IO.ConvertIoStructure2Ua | src/sasModelProvider/base/ConverterUa2IO.cpp:1101-1208 | the loop over the definition's children builds the structure, or fails for a missing mandatory field |
| ConverterUa2IO.ConvertIoUnion2Ua | src/sasModelProvider/base/ConverterUa2IO.cpp:1116-1155 | no field, one declared field, or a failure |
| ConverterUa2IO.ConvertIoArray2UaScalarArray | src/sasModelProvider/base/ConverterUa2IO.cpp:1320-1425 | the element loops for each supported pair of array type and destination |
| ConverterUa2IO.ConvertIoArray2UaStructureArray | src/sasModelProvider/base/ConverterUa2IO.cpp:1300-1318 | converts an array of structures element by element |
| BinaryRoundTrip.ArrivesAsNormal | src/provider/binary/messages/ConverterBin2IO.cpp:307-493 | exactly the sendable values are sent, and each arrives as its normal form |
| BinaryRoundTrip.NormalIffUnchanged | src/provider/binary/messages/ConverterBin2IO.cpp:143-288 | the normal values are exactly the fixed points of the trip |
| BinaryRoundTrip.NormalFormIsNormal | src/provider/binary/messages/ConverterBin2IO.cpp:178-268 | a second trip changes nothing, exactly for the values in which each array of texts, byte strings or Variants has a first element that arrives as a scalar and is no single character |
| BinaryRoundTrip.ReceivedExactly | src/provider/binary/messages/ConverterBin2IO.cpp:178-288 | the receiver refuses exactly the values with an array of an unknown type in them |
| BinaryRoundTrip.BinaryThereAndBack | src/provider/binary/messages/ConverterBin2IO.cpp:178-288 | a binary value returns unchanged from the internal interface if and only if it is stable |
| BinaryRoundTrip.NestedTagBack | src/provider/binary/messages/ConverterBin2IO.cpp:236-265 | an array of arrays keeps its tag exactly if the first element that becomes a scalar is a char or byte array |
| BinaryRoundTrip.RetagOfArrays | src/provider/binary/messages/ConverterBin2IO.cpp:250-263 | the loop keeps the array tag exactly if there is no scalar, and else takes the type of a scalar |
| ConverterBin2IO.ConvertBin2Io | src/provider/binary/messages/ConverterBin2IO.cpp:74-100 | computes the specified conversion to the internal interface |
| ConverterBin2IO.ConvertBin2IoArrayValue | src/provider/binary/messages/ConverterBin2IO.cpp:178-268 | the element loop and the retagging inside it |
| ConverterBin2IO.ConvertBin2IoStructureValue | src/provider/binary/messages/ConverterBin2IO.cpp:270-288 | every field is converted under its own name |
| ConverterBin2IO.ConvertIo2Bin | src/provider/binary/messages/ConverterBin2IO.cpp:102-141 | computes the specified conversion to the binary protocol |
| ConverterBin2IO.ConvertIo2BinArrayValue | src/provider/binary/messages/ConverterBin2IO.cpp:412-476 | maps the array tag or fails, then every element |
| ConverterBin2IO.ConvertIo2BinStructureValue | src/provider/binary/messages/ConverterBin2IO.cpp:478-493 | every field is converted under its own name |
| ConversionMeaning.NodeIdText | src/ioDataProvider/NodeId.cpp:94-109 | the text that a numeric or a string id is sent as |
| NodeIds.NodeIdRoundTrip | src/sasModelProvider/base/ConverterUa2IO.cpp:132-177 | a node id survives the trip exactly if it is numeric or a text without NUL |
| NodeIds.TextsAreCut | src/sasModelProvider/base/ConverterUa2IO.cpp:132-177 | a text id is cut at the first NUL in each direction |
| HaSubscriptionClass.HaSubscription.Add | src/binaryServer/HaSubscription.cpp:98-248 | the state after adding, including lazy creation, rollback and deletion, is the specified one |
| HaSubscriptionClass.HaSubscription.Remove | src/binaryServer/HaSubscription.cpp:250-348 | the state after removing, and whether an exception is thrown |
| HaSubscriptionClass.HaSubscription.RemoveAll | src/binaryServer/HaSubscription.cpp:350-360 | removes by the node ids of all entries |
| HaSubscriptionClass.HaSubscription.SubscriptionExpired | src/binaryServer/HaSubscription.cpp:414-463 | everything is monitored anew after the server lost the subscription |
| HaSubscriptionClass.HaSubscription.DataChange | src/binaryServer/HaSubscription.cpp:465-508 | each notification is delivered under the node of its handle or dropped; the state does not change |
| HaSubscriptionClass.HaSubscription.DeleteSubscription | src/binaryServer/HaSubscription.cpp:393-412 | deletes the subscription if there is one |
| SubscriptionRuns.AddLeaves | src/binaryServer/HaSubscription.cpp:149-248 | a request refused wholly or in part leaves the old table and exactly the accepted entries, and throws exactly if something is refused |
| SubscriptionRuns.RunKeepsTable | src/binaryServer/HaSubscription.cpp:149-171 | in every run handles are below the counter, never reused and never given to another node |
| SubscriptionRuns.LateNotification | src/binaryServer/HaSubscription.cpp:465-508 | over every run a late notification is dropped or routed to the node that its handle was first given |
| SubscriptionRuns.LateDelivery | src/binaryServer/HaSubscription.cpp:465-508 | what is delivered late is what would have been delivered at first, less the notifications whose entry is gone |
| SubscriptionAnswers.DeliveriesAre | src/binaryServer/HaSubscription.cpp:471-497 | the k-th delivery belongs to the k-th notification with a known handle: its node, with the value if the status is good and with an exception otherwise |
| SubscriptionAnswers.EachIsDelivered | src/binaryServer/HaSubscription.cpp:471-497 | no notification for an entry is lost |
| SubscriptionAnswers.RemoveAnswers | src/binaryServer/HaSubscription.cpp:250-348 | which entries a remove request leaves, exactly when it throws, and exactly when the subscription ends |
| SubscriptionAnswers.TargetAt | src/binaryServer/HaSubscription.cpp:263-279 | each monitored node of a request takes its place among the items to delete, in the order of the request |
| SubscriptionAnswers.AddSubscribes | src/binaryServer/HaSubscription.cpp:173-248 | when there is a subscription after an add request |
| SubscriptionAnswers.DeleteAnswers | src/binaryServer/HaSubscription.cpp:393-412 | a delete throws exactly if there is a subscription and the server refuses; the subscription then stays |
| SubscriptionAnswers.ExpireRefused | src/binaryServer/HaSubscription.cpp:436-457 | if the lost subscription cannot be deleted, the table is left empty and nothing is monitored anew |
| SubscriptionRuns.AddMirror | src/binaryServer/HaSubscription.cpp:173-248 | adding keeps table and server alike exactly unless a subscription is needed and cannot be created |
| SubscriptionRuns.ExpireMirror | src/binaryServer/HaSubscription.cpp:414-463 | when resubscribing keeps table and server alike, as an if-and-only-if |
| SubscriptionRuns.RunMirror | src/binaryServer/HaSubscription.cpp:98-360 | in every run whose subscriptions can be created, the ids in the table are exactly the server's live items |
| SubscriptionRuns.ReachableMirror | src/binaryServer/HaSubscription.cpp:98-360 | a client that starts without a subscription mirrors the server in every such run |
| SubscriptionRuns.RunTight | src/binaryServer/HaSubscription.cpp:222-348 | in every clean run the subscription exists exactly while the table is not empty |
| SubscriptionRuns.RemoveTightExactly | src/binaryServer/HaSubscription.cpp:250-348 | for every answer the subscription follows the table, exactly if no entry is named twice or some entry is not named |
| SubscriptionRuns.NamedTwice | src/binaryServer/HaSubscription.cpp:250-348 | a reachable state and a request for which the subscription can be left behind |
| SubscriptionRuns.RemoveAllIsSafe | src/binaryServer/HaSubscription.cpp:350-360 | removing all never leaves a subscription without entries, whatever is monitored twice |
| SubscriptionRuns.RemoveAllEmpties | src/binaryServer/HaSubscription.cpp:350-360 | if all deletes succeed, the table is emptied exactly if no node is monitored twice |
| SubscriptionRuns.MonitoredTwice | src/binaryServer/HaSubscription.cpp:98-171 | a reachable state in which a node is monitored twice |
| SubscriptionRuns.ResubscriptionConserves | src/binaryServer/HaSubscription.cpp:414-463 | after expiry the same nodes are monitored in the same order and kind, less those refused, all under new handles |
| SubscriptionRuns.ResubscriptionKeepsFields | src/binaryServer/HaSubscription.cpp:423-446 | each new entry is for a node, kind and event fields of an old one, if all entries of a node have the same event fields |
| SubscriptionRuns.ResubscriptionKeepsFieldsExactly | src/binaryServer/HaSubscription.cpp:423-446 | if everything is accepted anew, each entry keeps its event fields exactly if all entries of one node had the same ones |
| SubscriptionRuns.FieldsCanDiffer | src/binaryServer/HaSubscription.cpp:98-171 | a reachable state in which a node is monitored twice with different event fields |
| VariableWalk.NodeManager.AddVariables | src/provider/uaNodeSetXml/sasModelProvider/HaNodeManagerNodeSetXml.cpp:335-429 | if objects in reach form no cycle among themselves: the walk ends, covers everything below the node and marks only reachable variables; from a closed table it fails exactly if a reachable node cannot be resolved |
| VariableWalk.WalkAddsExactlyReachable | src/provider/uaNodeSetXml/sasModelProvider/HaNodeManagerNodeSetXml.cpp:335-429 | the table becomes the old closed table plus exactly the variables reachable through objects and variables |
| AddressSpace.ChildrenAreReferenced | src/provider/uaNodeSetXml/sasModelProvider/HaNodeManagerNodeSetXml.cpp:431-492 | the object type walk goes on exactly to the targets of forward hierarchical references |
| VariableWalk.StepIsReference | src/provider/uaNodeSetXml/sasModelProvider/HaNodeManagerNodeSetXml.cpp:335-429 | the variable walk goes on exactly to variables and objects that a forward hierarchical reference leads to |
| ObjectTypeWalk.NodeManager.AddObjectTypeElements | src/provider/uaNodeSetXml/sasModelProvider/HaNodeManagerNodeSetXml.cpp:431-492 | the walk ends on any finite graph and records each new element with its children in browse order; from a closed table it fails exactly if a reachable node cannot be resolved |
| ObjectTypeWalk.WalkAddsExactlyReachable | src/provider/uaNodeSetXml/sasModelProvider/HaNodeManagerNodeSetXml.cpp:431-492 | exactly what is reachable is added, and each new element but the root has a new parent that lists it |
| EventTypeSearch.IsEventType | src/provider/uaNodeSetXml/sasModelProvider/HaNodeManagerNodeSetXml.cpp:494-560 | the search ends with the answer that looking at the references in order gives |
| EventTypeSearch.AnswerIsSearch | src/provider/uaNodeSetXml/sasModelProvider/HaNodeManagerNodeSetXml.cpp:494-560 | an answer is true exactly if some reference in a followed direction leads to a mark, and a failure means a broken node |
| EventTypeSearch.FailsExactly | src/provider/uaNodeSetXml/sasModelProvider/HaNodeManagerNodeSetXml.cpp:494-560 | where nothing is found, the search fails exactly if some node it has to visit is broken |
| EventTypeSearch.EventTypeMeaning | src/provider/uaNodeSetXml/sasModelProvider/HaNodeManagerNodeSetXml.cpp:494-560 | true exactly if the type, a transitive sub type or a transitive super type has an incoming GeneratesEvent reference |
| EventTypeSearch.GeneratedIsReferenced | src/provider/uaNodeSetXml/sasModelProvider/HaNodeManagerNodeSetXml.cpp:494-560 | a node is marked exactly by an incoming GeneratesEvent reference to an object type |
| EventTypeSearch.StepIsReference | src/provider/uaNodeSetXml/sasModelProvider/HaNodeManagerNodeSetXml.cpp:494-560 | the search goes down exactly along forward and up along inverse HasSubtype references |
| SuperTypes.GetSuperTypesBySession | src/binaryServer/HaSession.cpp:305-347 | the loop lists the chain of super types, and fails at a node the server does not know |
| SuperTypes.GetSuperTypesByBrowser | src/sasModelProvider/base/NodeBrowser.cpp:77-118 | the loop lists the chain of super types, and stops at a node no manager knows |
| SuperTypes.GetNodeManagerUaNode | src/sasModelProvider/base/NodeBrowser.cpp:120-139 | finds the manager that is responsible for a namespace |
| SuperTypes.ManagerServes | src/sasModelProvider/base/NodeBrowser.cpp:120-139 | a manager of the namespace is found exactly if there is one: the root for namespace 0, else the own one, else the first associated one |
| SuperTypes.SpaceIsHeld | src/sasModelProvider/base/NodeBrowser.cpp:120-139 | with one manager for each namespace, a node is what that manager holds, and missing without one |
| SuperTypes.ListedExactly | src/sasModelProvider/base/NodeBrowser.cpp:77-118 | whatever the number of super types, a list holds exactly the super types of the nodes the walk comes by |
| SuperTypes.SessionAndBrowserAgree | src/sasModelProvider/base/NodeBrowser.cpp:77-118 | session and browser give the same answer exactly if the walk meets no missing node |
| SuperTypes.SuperTypesAreTheChain | src/binaryServer/HaSession.cpp:305-347 | with single inheritance the answer is the chain of super types, and nothing else is |
| SuperTypes.BuildInTypeIsStandardAncestor | src/sasModelProvider/base/ConverterUa2IO.cpp:191-206 | the built-in type of a type is its ancestor of namespace 0, if and only if there is one |
| SuperTypes.VendorTypeUnderInt32 | src/binaryServer/HaSession.cpp:305-347 | the session's answers for a vendor type two levels under `Int32`, and its built-in type |
| EventTypeRegistryClass.KeyInjective | src/sasModelProvider/base/EventTypeRegistry.cpp:87-92 | different types or indexes have different keys, whatever the text of the type id |
| EventTypeRegistryClass.RegisterAllMeaning | src/provider/uaNodeSetXml/sasModelProvider/HaNodeManagerNodeSetXml.cpp:82-99 | after the registration loop each type has its super type and each name its own declaration, and nothing else is registered |
| EventRegistration.RegisterEventTypes | src/provider/uaNodeSetXml/sasModelProvider/HaNodeManagerNodeSetXml.cpp:70-112 | the loop over the element table registers exactly the object types that the search finds to be event types, and reports whether every search had an answer |
| EventRegistration.RegisteredTypes | src/provider/uaNodeSetXml/sasModelProvider/HaNodeManagerNodeSetXml.cpp:70-112 | from an empty registry, exactly those object types of the table are registered that are generated as events themselves or have a sub type or super type that is; only a type whose search meets an unresolved node may be missing |
| EventRegistration.RegisterElement | src/provider/uaNodeSetXml/sasModelProvider/HaNodeManagerNodeSetXml.cpp:84-99 | an event type is registered under its recorded parent, with those of its children that are variables |
| EventRegistration.CreateObjectTypes | src/provider/uaNodeSetXml/sasModelProvider/HaNodeManagerNodeSetXml.cpp:187-190 | after the walks from all created object types every element has a super type or a listing element as parent; it fails only at an unresolved node |
| EventRegistration.ParentIsSuperType | src/provider/uaNodeSetXml/sasModelProvider/HaNodeManagerNodeSetXml.cpp:431-492 | a recorded parent is the one super type the client browses, if within the table object types are below other elements only as sub types, with the inverse reference, and have one super type at most |
| EventRegistrationExample.OtherParentRecorded | src/provider/uaNodeSetXml/sasModelProvider/HaNodeManagerNodeSetXml.cpp:431-492 | a type that is first met below a type that organizes it is recorded with that parent, also after a walk from its super type |
| EventRegistration.FieldsAreOwn | src/provider/uaNodeSetXml/sasModelProvider/HaNodeManagerNodeSetXml.cpp:86-99 | the variables among the children are the fields the client collects for the type itself |
| EventRegistration.DeclarationsAreShown | src/provider/uaNodeSetXml/sasModelProvider/HaNodeManagerNodeSetXml.cpp:70-112 | under the same conditions, and if event types refer to variables forward only, the client browses every registered event type as it was registered |
| EventRegistration.TableAgrees | src/provider/uaNodeSetXml/sasModelProvider/HaNodeManagerNodeSetXml.cpp:70-112 | under the same conditions on the table, with names distinct within a type and an acyclic type hierarchy: client and server agree on every registered name of every type; nodes outside the table may organize object types |
| EventRegistrationExample.AgreementApplies | src/provider/uaNodeSetXml/sasModelProvider/HaNodeManagerNodeSetXml.cpp:70-112 | an address space with a folder of the standard and a vendor type that organize object types meets all conditions of that agreement after a walk from the super type |
| EventRegistration.TableDisagrees | src/provider/uaNodeSetXml/sasModelProvider/HaNodeManagerNodeSetXml.cpp:70-112 | client and server disagree on a name that the recorded parent and the browsed super type of an event type both declare, if the type itself does not |
| EventRegistrationExample.Disagreement | src/provider/uaNodeSetXml/sasModelProvider/HaNodeManagerNodeSetXml.cpp:70-112 | in the same address space they disagree after a walk that meets the organizing type first |
| EventTypeRegistryClass.EventTypeRegistry.RegisterEventField | src/sasModelProvider/base/EventTypeRegistry.cpp:44-53 | enters the field under the key of its type and of its name's index |
| EventTypeRegistryClass.EventTypeRegistry.GetEventFieldNodeId | src/sasModelProvider/base/EventTypeRegistry.cpp:55-85 | the loop finds the nearest registration up the registered super types |
| EventFieldCollection.GetEventFields | src/binaryServer/HaSession.cpp:917-1034 | the recursion collects the specified list |
| EventFieldCollection.CollectedIsNearest | src/binaryServer/HaSession.cpp:917-1034 | each name stands for its nearest declaration, whatever was collected before it wins |
| EventFieldCollection.CollectedDistinct | src/binaryServer/HaSession.cpp:940-955 | no name occurs twice in the list |
| EventFieldCollection.Agreement | src/sasModelProvider/base/EventTypeRegistry.cpp:55-85 | for each type whose registered chain is the one the client browses, the registry's answer is the client's nearest declaration; without an answer the name is declared only above the registered types |
| EventFieldCollection.ClientAndServerAgree | src/binaryServer/HaSession.cpp:917-1034 | from the registration on, the client's field for a name of such a type is the server's |
| EventFieldCollection.OtherParentExactly | src/sasModelProvider/base/EventTypeRegistry.cpp:55-85 | a type registered under another parent agrees on exactly the names it declares itself and those for which the client finds from the super type what the server makes of them for the parent |
| EventFieldCollection.OverriddenDifferently | src/sasModelProvider/base/EventTypeRegistry.cpp:55-85 | they disagree on a name that parent and super type both declare for nodes of their own |
| CachedConverterCallbackClass.CachedConverterCallback.Preload | src/binaryServer/CachedConverterCallback.cpp:57-95 | for a type that is not below itself, whatever else is recursive: succeeds exactly if the callback knows everything below the type, and then the cache does; only definitions of vendor structures are entered |
| CachedConverterCallbackClass.CachedConverterCallback.GetSuperTypes | src/binaryServer/CachedConverterCallback.cpp:121-142 | answers as the callback does, and remembers the answer |
| CachedConverterCallbackClass.CachedConverterCallback.GetStructureDefinition | src/binaryServer/CachedConverterCallback.cpp:97-119 | answers as the callback does, and remembers the answer |
| CachedConverterCallbackClass.CachedConverterCallback.Clear | src/binaryServer/CachedConverterCallback.cpp:47-55 | empties the cache and keeps its invariant |
| CachedConverterCallbackClass.LoadedIsKnownBelow | src/binaryServer/CachedConverterCallback.cpp:57-95 | a type is loaded exactly if each type met going down the fields of vendor structures has a built-in type that is not null and, if structured, a definition |
| CachedConverterCallbackClass.LoadedMonotone | src/binaryServer/CachedConverterCallback.cpp:57-95 | what is loaded stays loaded while the cache grows |
| CachedConversion.ConvertsFromCache | src/sasModelProvider/base/ConverterUa2IO.cpp:191-257 | for any cache and any value that converts, the cache alone gives the same result exactly if it misses no lookup, and a failure otherwise |
| CachedConversion.ConvertsFromCacheBack | src/sasModelProvider/base/ConverterUa2IO.cpp:844-892 | the same for the way back |
| CachedConversion.PreloadedExactly | src/binaryServer/CachedConverterCallback.cpp:57-95 | after a preload a value without Variants is converted from the cache alone exactly if it meets no field of type `Structure` or `Union` of namespace 0 |
| CachedConversion.PreloadedExactlyBack | src/binaryServer/CachedConverterCallback.cpp:57-95 | after a preload a value that converts is converted from the cache alone exactly if it has the form of a structure only where the type is a loaded vendor structure |
| CachedConversion.CacheSuffices | src/binaryServer/CachedConverterCallback.cpp:57-95 | for a loaded type without structures of namespace 0 the cache gives the callback's result, whether the value converts or not |
| CachedConversion.CacheSufficesBack | src/binaryServer/CachedConverterCallback.cpp:57-95 | if the cache has all that the server defines at or below a loaded type, it gives the callback's result for any value, whether it converts or not |
| CachedConversion.StandardStructureIsNotLoaded | src/binaryServer/CachedConverterCallback.cpp:58-60 | a structure of namespace 0 counts as loaded although its definition is missing |
| CachedConversion.RangeIsNotLoaded | src/binaryServer/CachedConverterCallback.cpp:58-60 | a vendor structure with a field of the standard type `Range` is loaded, but a value with that field cannot be converted back from the cache |
| FieldModels.FieldModel.FindFieldModel | src/binaryServer/Client.cpp:989-1052 | for a type that does not need itself, whatever else is recursive: adds the entry after all it needs, leaves nothing dangling, and fails exactly if super types of a needed type cannot be read |
| FieldModels.AvailableIsReadable | src/binaryServer/Client.cpp:989-1052 | building the model of a type succeeds exactly if, of all types it needs directly or indirectly, the super types of those without fields can be read |
| FieldModels.FieldModel.FindChildren | src/provider/binary/jDataProvider/JDataProvider.cpp:118-138 | the entry of a structure, with all referenced types in the model |
| FieldModels.FieldModel.FindOwnType | src/provider/binary/jDataProvider/JDataProvider.cpp:139-171 | the entry of a type without fields |
| FieldModels.FieldModel.CheckCall | src/binaryServer/Client.cpp:551-567 | the arguments of a method refer to types in the model; of equal names the last one stays |
| FieldModels.FieldModel.CheckVariable | src/binaryServer/Client.cpp:569-578 | a variable refers to its type; if the type cannot be read, that reference is the only one left dangling |
| FieldModels.KeyInjective | src/common/native2J/Native2J.cpp:444-457 | the printed id is a sound key of the model |
| FieldModels.TypeLookup | src/common/native2J/Native2J.cpp:444-457 | the name of a field finds the type of the last field of that name, any other key the structure itself; a type without fields is resolved to its own type |
| FieldModels.ArgumentLookup | src/common/native2J/Native2J.cpp:444-457 | after a call has been checked, the name of an argument finds its data type |
| FieldModels.ResolveScalar | src/common/native2J/Native2J.cpp:388-400 | resolution ends and follows the model to the type's own meaning |
| FieldModels.ModelAgreesWithConverters | src/common/native2J/Native2J.cpp:375-457 | for a type without fields the model and the converters agree on the built-in type exactly if its chain reaches namespace 0, or ends at a type without a number or with fields |
| FieldModels.VendorTypeTakenForInt32 | src/binaryServer/Client.cpp:1040-1046 | a vendor type number is taken for a standard type |
| FieldModels.SessionAnswersUpToTheTop | src/binaryServer/HaSession.cpp:305-347 | the lists that the session answers go up to a type without super types |
| ParamIds.Split | src/provider/binary/messages/dto/ParamId.cpp:88-96 | the loop yields the tokens that `getline` reads |
| ParamIds.ParseParamId | src/provider/binary/messages/dto/ParamId.cpp:56-86 | which of namespace and identifier a text sets, and to what |
| ParamIds.ParseText | src/provider/binary/messages/dto/ParamId.cpp:56-86 | what any text of three parts sets: the second one decides between number and name |
| ParamIds.ParseNamespace | src/provider/binary/messages/dto/ParamId.cpp:64-69 | the namespace is read after the first `S` of the first part and up to the next one; without an `S` none is set |
| ParamIds.ParsePrinted | src/provider/binary/messages/dto/ParamId.cpp:119-132 | parsing undoes printing exactly for numbers and for non-empty texts without separator and NUL |
| ParamIds.ParseAnyPrinted | src/provider/binary/messages/dto/ParamId.cpp:56-86 | what parsing makes of any printed id |
| ParamIds.PrintedAlike | src/provider/binary/messages/dto/ParamId.cpp:119-132 | two ids print alike exactly if they are equal up to what follows a NUL |
| Reconnect.Open | src/binaryServer/HaSession.cpp:191-228 | the retry loop ends with the first success, or not before the deadline, and every timeout and delay is the specified one |
| Reconnect.SleepsWithinTimeout | src/binaryServer/HaSession.cpp:199-228 | total sleep is at most the timeout, and every attempt's timeout is within it and ends at the deadline |
| Reconnect.AttemptsBounded | src/binaryServer/HaSession.cpp:216-228 | the sum of the delays cut at the longest, over all attempts, is less than the timeout |
| Reconnect.FewAttempts | src/binaryServer/HaSession.cpp:216-228 | at most one attempt a second, and about a square root of that while the delay grows |
| Reconnect.GivesUpAtDeadline | src/binaryServer/HaSession.cpp:200-228 | if no attempt exceeds its timeout the loop gives up exactly at the deadline |
| Reconnect.NoSleepAfterSuccess | src/binaryServer/HaSession.cpp:200-228 | the loop ends with the answer of the successful attempt |
| Reconnect.NoDelayNoEnd | src/binaryServer/HaSession.cpp:217-223 | with a longest delay of zero there are logs of any length |
| LoggerFactories.LoggerFactory.Construct | src/common/logging/LoggerFactory.cpp:26-37 | the new factory becomes active and the old one is kept |
| LoggerFactories.LoggerFactory.Destroy | src/common/logging/LoggerFactory.cpp:39-71 | the state after a destruction, where the program's behavior is defined |
| LoggerFactories.RunRefinesLive | src/common/logging/LoggerFactory.cpp:26-71 | in every run of distinct factories the statics represent the ordered list of those alive |
| LoggerFactories.ActiveIsLatestAlive | src/common/logging/LoggerFactory.cpp:26-79 | the active factory is the most recently constructed one alive, or none |
| LoggerFactories.DestructionExact | src/common/logging/LoggerFactory.cpp:39-71 | a destruction takes the right entry exactly if only the same factory was constructed in between |
| LoggerFactories.UnknownFactory | src/common/logging/LoggerFactory.cpp:39-71 | a destruction that finds no entry is undefined, except that of two factories the earlier one is taken without a search |
| LoggerFactories.RepeatedFactory | src/common/logging/LoggerFactory.cpp:39-71 | destroying the first of two objects for one factory deactivates the second |

## Left out

- The UA SDK and the servers: sessions, browsing, encoding and the internals of variants are parameters. The model takes it that a `UaString` made from an empty text is not NULL, that a byte string of length 0 is, that the XML text of node ids is injective, and that `toFullString` prints numeric and string ids as `ParamId::toString` does.
- Extension objects are held decoded: one that cannot be decoded under a definition shows no field, and a structure that is built has the destination type as its type.
- Exception texts and classes: every exception is the same failure.
- Integer widths follow an LP64 platform; floating point values are opaque tokens.
- The client handle counter is unbounded; the wrap-around of the source's counter after 2^31 handles is not modelled.
- A NULL element of an internal string array has no defined conversion in the source (a null pointer is used); the model fails there.
- An internal array whose elements do not have the type of its tag is cast without a check in the source; the model reads 0 or NULL from such an element.
- Results of the server have the length of the request, and the ids it hands out are new, as the OPC UA services guarantee.
- A failed delete or create call is taken to leave the server's items as they are.
- GUID and opaque node ids: they fail to convert, as in the source, and are excluded from the field model, where the source prints an unspecified text for them.
- The field model of the data provider when no node browser is set: it stays empty.
- A field that is named like the key of its own structure type: excluded where the field model is resolved.
- Reading numbers: `Decimals` does not model leading white space, a plus sign or values out of range; none of them is printed.
- The string constructor of `ParamId` keeps a reference to a local text; the model has the intended value.
- `createSubscription` failing inside `add` is modelled, and is the exact exception to the mirror invariant; the runs of the mirror theorem exclude it.
- `newEvents`: an unknown handle is undefined behavior in the source; delivery of events is otherwise like that of data.
- Event fields whose data type cannot be read have no name in the source, which then dereferences NULL; all reads are taken to succeed.
- HaSubscriptionClass.HaSubscription.Remove: after a subscription could not be created its entries stay in the table, and a later `remove` that finds one of them uses the missing subscription; the source then dereferences NULL, where the contract names a state.
- One fixed address space serves the walks, the registration and the client. The source notes that the reference to the parent is not yet available while it walks; references that appear only later are not modelled.
- Structures that contain themselves: `preload` and `findFieldModel` do not end for them, and the contracts speak of the other types.
- `getSuperTypes` of the session on a closed session, and time going backwards in the retry loop.
- RunTight: is stated for runs in which subscription calls succeed; what one failing call does is in the specification of the step.
- Memory ownership, locking, threads, JNI and Java objects, loading of providers, configuration, log output, and plain data transfer objects.
