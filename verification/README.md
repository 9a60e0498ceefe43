# i3x2ua: a verified model

i3x2ua turns an OPC UA address space into a graph of elements with three relationship planes (hierarchy,
composition, graph) and answers queries over it. This project models the parts of it where several pieces of
state have to agree, and proves that they do. `dafny verify dfyconfig.toml` checks everything.

| files | what they model |
|---|---|
| `ModelBuilder`, `PlaneSelection`, `Relationships`, `RelationshipMap`, `RelationshipCatalogue`, `ModelBuild`, `ParentPreference`, `ModelTheorems`, `ModelMeaning` | the model builder: candidate parents, one parent per plane, relationship IDs, the map of edges and inverses, and what holds of every model built |
| `PathSearch`, `PathMeaning` | the bounded breadth-first path search and what its answer says |
| `ParentChains`, `BrowsePath`, `TypeIndex`, `NameSearch` | cached model queries: browse paths, the subtype index, name search and pages |
| `Schema`, `SchemaFingerprint`, `SchemaMerge`, `SchemaDedupe`, `SchemaMerging`, `SchemaExpansion`, `SchemaInlining`, `SchemaCycles`, `SchemaCollection` | type schemas with local references: merging equal definitions in place, inlining, transitive collection |
| `JsonText`, `HashConsing` | the JSON serialiser and the sharing of equal schema containers |
| `History` | the conformance fixture's capped history upsert |
| `ContextCache`, `ContextRuns`, `ModelCache` | the stale-while-revalidate type context cache and the lazily built model, as steps between awaits |
| `McpTransport`, `McpRuns` | MCP sessions and their event streams |
| `NodeIds`, `NodeIdSenses`, `NodeIdentity` | canonical NodeIds and the translation between NodeIds and element IDs |
| `SubscriptionStream`, `EventStreamText` | the subscription stream's generator, printer and client |
| `HttpCaching`, `ConditionalGet` | entity tags and the conditional GET middleware |
| `Options`, `Texts`, `Ordering` | shared definitions |

Methods follow the loops and in-place updates of the code they model and are proved against functions and
predicates; the lemmas then say what these mean, the main ones in terms of the input alone: references, events,
recorded relationships, texts. The caches and the MCP transport are state machines whose steps
are the code between two awaits, so a run is any interleaving. Dictionary order is modelled where the code's
result depends on it; elsewhere a loop over a dictionary or a set takes its elements in any order.

Behaviour that differs from what one might expect of the code, each with its exact condition:

* A namespace URI that starts with `inverseOf_` can make a relationship ID equal to an inverse name, which the
  collision guard does not notice (`Relationships.ShadowingNamespaceExample`, `Relationships.IdsApartIff`).
  The relationship map of a model then need not be closed under inverses: it is exactly if its clashing edges are
  matched (`ModelTheorems.ModelIsClosedIff`), and `ModelTheorems.UnclosedModel` is a build where they are not.
* A namespace URI with a semicolon makes the canonical NodeId unstable, unless its rest after the first semicolon
  reads as a string or ByteString identifier (`NodeIds.CanonicalIsIdempotent`).
* The indexed and the expanded form of a node can have different canonical forms: for some text exactly if some
  namespace URI has a semicolon (`NodeIds.AllFormsAgreeIff`), and for one text exactly if its URI has one and its
  identifier is not normal (the URI reads back) or not invalid (it does not) (`NodeIds.FormsAgreeIff`).
* Two different nodes can have one canonical form: exactly if a namespace URI goes on behind another one like a string
  or ByteString identifier, as `a;s=b` does behind `a` (`NodeIdSenses.NodesApartIff`).
* A reference that stands beside a reference to the same definition is not inlined even without recursion
  (`SchemaCycles.SiblingReferenceExample`). A reference is left exactly if a run of references, each in what
  replaces the one before, comes back to a name (`SchemaCycles.ResidualIffRepeats`).
* The sample event stream client differs from the standard on an event field without a value and on a close event
  without data (`EventStreamText.StepsAgree`); the server prints neither.

## Model

| member | source | states |
|---|---|---|
| `PathSearch.TraceRelationshipPath` | i3x_server/mcp/model_tools.py:617-708 | Unknown elements are reported, the source first. Otherwise the answer is exact: a returned path is a real walk over the chosen planes and direction, as long as reported, within maxDepth, and no shorter walk exists; an answer that is not truncated means no walk of any length; with at most 5000 elements a miss means no walk within maxDepth, and truncated says exactly whether the depth limit cut something off |
| `PathMeaning.AnswerIsExact` | i3x_server/mcp/model_tools.py:617-708 | The same, told by the recorded relationships and the literal planes alone: a found path is one, within the limit, as short as any, and takes the first of parallel relationships by plane, type and direction; no path and untruncated means there is none; up to 5000 elements a miss means none within the limit, truncated exactly if some element was too far |
| `PathMeaning.PathIsWalk` | i3x_server/mcp/model_tools.py:628-654 | The walks the search is about are the paths along relationships of the requested planes in the allowed directions |
| `PathSearch.Search` | i3x_server/mcp/model_tools.py:656-708 | The bounded breadth-first loop over the adjacency sets gives that exact answer and terminates |
| `PathSearch.Adjacency` | i3x_server/mcp/model_tools.py:628-639 | The two adjacency maps hold exactly the relationship entries of the chosen planes between known elements, forwards and backwards |
| `PathSearch.Neighbors` | i3x_server/mcp/model_tools.py:641-654 | The neighbours are exactly the hops the direction allows, ordered by neighbour, plane, relationship type and direction |
| `PathSearch.ExpandFirst` | i3x_server/mcp/model_tools.py:669-701 | Expanding the first queue entry keeps the breadth-first frontier, or finds a shortest path, or stops at the cap with that many reachable elements visited |
| `PathSearch.LabelsAreShortest` | i3x_server/mcp/model_tools.py:656-697 | Any labelling whose expanded elements label their neighbours at most one further bounds every walk from below |
| `PathSearch.ClosedSetHoldsWalks` | i3x_server/mcp/model_tools.py:669-673 | A set closed under hops holds the end of every walk from inside it, which is why an exhausted search proves unreachability |
| `PathSearch.Exhausted` | i3x_server/mcp/model_tools.py:659-708 | An empty queue with an unvisited target leaves no walk within the depth limit, and none at all if no element at the limit had an unvisited neighbour |
| `PathSearch.CapNeedsManyElements` | i3x_server/mcp/model_tools.py:698-701 | The element cap can only end a search when more than 5000 elements exist |
| `ModelBuilder.KeptIsFirst` | i3x_server/model/builder.py:221-227 | The seen-edge check keeps exactly the first reference of each target and reference type |
| `ModelBuilder.AddEntryKeepsDrafts` | i3x_server/model/builder.py:222-261 | One more reference keeps the four draft tables equal to what the references seen so far call for |
| `ModelBuilder.CollectSource` | i3x_server/model/builder.py:199-261 | All kept references of one node are classified into hierarchy candidates, composition candidates, graph entries and registered namespaces; it fails exactly when a reference type has no namespace |
| `ModelBuilder.Collect` | i3x_server/model/builder.py:178-261 | The draft tables hold exactly what the kept references of all nodes call for, or some reference type has no resolvable namespace |
| `PlaneSelection.Best` | i3x_server/model/builder.py:286-289 | The selected candidate has the least priority, among those the first parent by NodeId, and among those the first name |
| `ParentPreference.KindsInOrder` | i3x_server/model/builder.py:546-554 | Organizes comes before HasComponent, HasComponent before HasOrderedComponent, and every other name after these |
| `ParentPreference.ParentsArePreferred` | i3x_server/model/builder.py:222-309 | In every built model an element has, in either plane, the parent its references prefer: the first by NodeId among those that Organizes proposes, else HasComponent, else HasOrderedComponent, else any other reference; and none exactly if none is proposed |
| `Ordering.StringLeIsLexicographic` | i3x_server/model/builder.py:286-289 | Texts are compared by the first character in which they differ, a beginning before what goes on |
| `PlaneSelection.BestIsUnique` | i3x_server/model/builder.py:286-289 | Candidate lists with the same elements select the same candidate, in whatever order they were collected |
| `PlaneSelection.AddLosers` | i3x_server/model/builder.py:293-300 | Exactly the candidates that differ from the selected one in parent or priority become OrganizedBy entries, and the relation is registered exactly if there are any |
| `PlaneSelection.SelectHierarchy` | i3x_server/model/builder.py:285-300 | The hierarchy parents are the best candidates, the child lists are their inverse, and the graph entries grow by the losing parents only |
| `PlaneSelection.SelectComposition` | i3x_server/model/builder.py:302-309 | The composition parents are the best candidates with inverse child lists, and a parent source already set by the hierarchy stays |
| `PlaneSelection.NoCandidateIsLost` | i3x_server/model/builder.py:285-300 | Every hierarchy candidate is the chosen parent or the target of an OrganizedBy entry |
| `Relationships.AssignIds` | i3x_server/model/builder.py:311-329 | IDs are assigned to all registered relations, injectively and with matching namespace and display name tables; the assignment raises exactly when two relations would share an ID |
| `Relationships.AssignName` | i3x_server/model/builder.py:320-328 | The inner loop does so for one name over its sorted namespaces |
| `Relationships.IdIsNoBuiltIn` | i3x_server/model/builder.py:314-321 | No relationship ID and no inverse name is one of the four built-in relations |
| `Relationships.IdThatIsInverse` | i3x_server/model/builder.py:314-321 | An ID equals an inverse name exactly when its namespace itself starts with inverseOf_ and continues as the other ID |
| `Relationships.IdsApartIff` | i3x_server/model/builder.py:314-325 | IDs and inverse names stay apart exactly when no registered namespace shadows an inverse name; namespaces that do not start with inverseOf_ never do |
| `Relationships.ShadowingNamespaceExample` | i3x_server/model/builder.py:314-325 | Two namespaces for which the collision guard passes and an ID equals an inverse name all the same |
| `RelationshipMap.AppendHolds` | i3x_server/model/builder.py:279-283 | Appending a relationship adds one edge to the map, keeps its lists free of duplicates and changes nothing else |
| `RelationshipMap.WriteAll` | i3x_server/model/builder.py:335-349 | The relationship map holds exactly the hierarchy, composition and graph edges with their inverses, without duplicates |
| `RelationshipMap.ApartIsClosed` | i3x_server/model/builder.py:335-349 | With IDs apart from inverse names, t is listed under s by a relation exactly if s is listed under t by its reverse |
| `RelationshipMap.ClashBreaksClosure` | i3x_server/model/builder.py:346-349 | When one ID is the inverse name of another, some related lists over these IDs give a map that is not closed under inverses; ModelTheorems.UnclosedModel shows a build that does |
| `RelationshipMap.InverseClosedIff` | i3x_server/model/builder.py:335-349 | Every map over a set of relationship IDs is inverse-closed exactly if the IDs are apart from the inverse names |
| `RelationshipMap.ClosedIffMatched` | i3x_server/model/builder.py:335-349 | One relationship map is inverse-closed exactly if its clashing edges are matched: for every edge missing from the related lists, the edge it would be the inverse of and the edge of its own inverse name are listed together or not at all |
| `RelationshipMap.AtMostOneParent` | i3x_server/model/builder.py:335-338 | The HasParent list of an element holds its hierarchy parent and nothing else |
| `RelationshipCatalogue.RelationshipTypeItems` | i3x_server/application/services/model_query.py:112-172 | The catalogue lists the four built-in types and, for every relationship ID in sorted order, the type and its inverse |
| `RelationshipCatalogue.PartnerReverses` | i3x_server/application/services/model_query.py:113-171 | Every entry has a partner that names it as its reverse, in the same namespace |
| `RelationshipCatalogue.UniqueElementIdsIff` | i3x_server/application/services/model_query.py:112-172 | Catalogue element IDs are unique exactly if the relationship IDs are apart from the inverse names |
| `RelationshipCatalogue.ReverseIsInvolution` | i3x_server/application/services/model_query.py:112-172 | Following reverseOf twice leads back to the entry |
| `RelationshipCatalogue.CatalogueMatchesMap` | i3x_server/application/services/model_query.py:112-172 | The reverse relation the catalogue names is the one the relationship map records |
| `ModelBuild.Build` | i3x_server/model/builder.py:36-520 | The build fails exactly if some reference type has no resolvable namespace, reports an ambiguous relationship ID exactly if otherwise two registered relations share one, and in every other case returns a model that agrees with every phase; both conditions speak of the address space only |
| `ModelBuild.CollectOwnEntries` | i3x_server/model/builder.py:271-274 | The graph entries of an element start from those of the last source node, in dictionary order, that maps to it |
| `ModelBuild.Relate` | i3x_server/model/builder.py:329-334 | The related lists are the graph entries under their relationship IDs |
| `ModelBuild.ResolveParents` | i3x_server/model/builder.py:363-373 | The stored parent is the hierarchy parent, else the composition parent; the roots are the elements without one |
| `ModelTheorems.ModelIsInverseClosed` | i3x_server/model/builder.py:311-349 | Every built model whose address space registers no namespace that starts with inverseOf_ has an inverse-closed relationship map |
| `ModelTheorems.ModelIsClosedIff` | i3x_server/model/builder.py:311-349 | A built model has an inverse-closed relationship map exactly if the clashing edges of its related lists are matched |
| `ModelTheorems.UnclosedModelIsBuilt` | i3x_server/model/builder.py:178-329 | Two nodes with references of two types of one name, whose namespaces are urn:a and inverseOf_urn:a, pass every check of the build |
| `ModelTheorems.UnclosedModel` | i3x_server/model/builder.py:178-349 | Every model built from these two nodes has a relationship map that is not closed under inverses |
| `ModelTheorems.ModelNamespaces` | i3x_server/model/builder.py:255-321 | The relations a build registers and their IDs are those the address space determines, and none collide |
| `ModelTheorems.ModelCatalogue` | i3x_server/application/services/model_query.py:112-172 | The catalogue of a built model has unique element IDs exactly if its relationship IDs are apart from the inverse names; then reverseOf is an involution, and the type it names is the reverse in the relationship map |
| `ModelTheorems.HasParentIsHierarchyParent` | i3x_server/model/builder.py:335-338 | In every built model the HasParent list of an element is its hierarchy parent |
| `ModelTheorems.HierarchyReferencesSurvive` | i3x_server/model/builder.py:249-300 | In every built model each hierarchy reference ends up as HasParent or as OrganizedBy |
| `ModelTheorems.RootsHaveNoParent` | i3x_server/model/builder.py:363-373 | An element is a root exactly if no reference proposes a parent for it in either plane; otherwise its stored parent is the preferred hierarchy parent, or the preferred composition parent where there is no hierarchy parent |
| `ModelTheorems.ParentIffCandidate` | i3x_server/model/builder.py:285-309 | An element has a parent in a plane exactly if some reference proposes one |
| `ModelTheorems.NamespacesKeepIdsApart` | i3x_server/model/builder.py:311-325 | IDs are apart from inverse names in every built model whose registered namespaces keep them apart |
| `ModelBuilder.LastNodeIsKept` | i3x_server/model/builder.py:42-62 | Of nodes with one NodeId the last one is kept |
| `ModelBuilder.KeysAsFirstMet` | i3x_server/model/builder.py:42-62 | The NodeIds are listed in the order in which they are first met |
| `ModelTheorems.PermutedNodesSameBrowse` | i3x_server/model/builder.py:42-62 | Reordering browsed nodes with distinct NodeIds leaves the same nodes and reference entries |
| `ModelTheorems.ParentsIgnoreOrder` | i3x_server/model/builder.py:285-309 | Two builds of the same nodes in any order choose the same parents and roots |
| `ModelMeaning.RelationshipsAreReferences` | i3x_server/model/builder.py:178-349 | The whole relationship map of every built model, from the address space alone: HasParent and HasChildren follow the hierarchy parents, ComponentOf and HasComponent the composition parents, every other type a reference of the last source node or a proposal that was not chosen, or by its inverse name one that leads back; no target twice |
| `ModelMeaning.RelatedIff` | i3x_server/model/builder.py:255-334 | An element is related to another by a relation exactly if a reference outside both planes says so or the relation is OrganizedBy and the other was proposed as parent and not chosen |
| `ModelMeaning.LoserOrganizesToo` | i3x_server/model/builder.py:285-300 | The losing candidates are the proposals that name another parent than the preferred one or propose it by another kind of reference |
| `ModelMeaning.CatalogueNamesRelations` | i3x_server/application/services/model_query.py:112-172 | The catalogue of a built model holds the four built-in types and, for every relation of the address space, its type and the inverse one under its name and namespace, and nothing else |
| `History.UpsertRefinesMap` | conf-test-server/server.py:93-100 | One upsert keeps the records the newest entries of the last-write-wins map |
| `History.RunIsNewest` | conf-test-server/server.py:93-100 | After any run of upserts from empty the records are strictly ascending and exactly the newest entries of the map, as many as the cap allows, all of them without a cap |
| `History.NewestIsUnique` | conf-test-server/server.py:93-100 | There is exactly one such record list for a map and a cap |
| `History.AscendingIsStrict` | conf-test-server/server.py:97 | Records ascend strictly in time at every distance |
| `History.SortByTime` | conf-test-server/server.py:97 | The sort by source timestamp returns a permutation in order of time that leaves records of equal time in their order |
| `History.SortIsStable` | conf-test-server/server.py:97 | Inserting from the back gives the stable sort of any record list |
| `History.WritableHistoryDict.Upsert` | conf-test-server/server.py:93-100 | Filtering, appending, sorting and cutting in place leaves one node history equal to the specified one and all others unchanged |
| `History.FixtureHistoryManager.StoreAccepted` | conf-test-server/server.py:129-141 | The accepted values of one item are stored in order, and every value gets its own status |
| `History.FixtureHistoryManager.UpdateOne` | conf-test-server/server.py:112-142 | An item that is not an update, not writable or not permitted changes nothing and gets its status without value statuses; otherwise each value gets its own status and the good ones are appended to the history |
| `History.FixtureHistoryManager.UpdateHistory` | conf-test-server/server.py:110-143 | Over a whole request every item gets its own status and value statuses, and each node history grows by exactly the accepted values addressed to it |
| `History.AnswersAreSpelledOut` | conf-test-server/server.py:112-141 | Which status an item and each of its values gets, by their fields: an update of a writable node whose two access levels have the history write bit, values with a timestamp, a single value and the type of the node or none |
| `History.StoredIffStorable` | conf-test-server/server.py:112-141 | A request stores for a node exactly the storable values that permitted updates of it hold |
| `History.FixtureHistoryManager.HistoryIsNewest` | conf-test-server/server.py:93-143 | In every state the update service reaches, each history is the newest part of everything accepted for it |
| `Schema.RewriteIsIdempotent` | i3x_server/schemas/objecttype_schema.py:1633-1651 | Rewriting references twice by an idempotent alias map is rewriting them once |
| `Schema.MergePreservesMeaning` | i3x_server/schemas/objecttype_schema.py:1604-1651 | At every unfolding depth a rewritten schema over the merged definitions unfolds to the tree it had before |
| `Schema.RewrittenRefs` | i3x_server/schemas/objecttype_schema.py:1641-1646 | Rewriting renames the local references and nothing else |
| `Schema.ResolvedStaysResolved` | i3x_server/schemas/objecttype_schema.py:1604-1651 | A rewritten reference resolves exactly if a reference it comes from did |
| `Schema.MergedKeepsMeaning` | i3x_server/schemas/objecttype_schema.py:1604-1630 | The whole document means the same after its definitions are merged |
| `Schema.MergedWithoutRenaming` | i3x_server/schemas/objecttype_schema.py:1626-1627 | When every definition is its own winner, merging changes nothing, so returning early is right |
| `SchemaMerge.RewriteLocalRefs` | i3x_server/schemas/objecttype_schema.py:1633-1651 | The in-place rewriting visits everything below a value and leaves each container rewritten once, however often it is reached through shared parents |
| `SchemaMerge.JsonRewritten` | i3x_server/schemas/objecttype_schema.py:1633-1651 | Rewriting every container below a value rewrites the value it stands for |
| `SchemaMerge.Fingerprint` | i3x_server/schemas/objecttype_schema.py:1654-1671 | The fingerprint is the JSON text of the value with the members of every dictionary sorted by key |
| `SchemaMerge.NormalizeSchemaValue` | i3x_server/schemas/objecttype_schema.py:1663-1671 | The recursion over containers gives the key-sorted form of the value they stand for |
| `SchemaFingerprint.FingerprintIff` | i3x_server/schemas/objecttype_schema.py:1654-1671 | Two values have the same fingerprint exactly if they are equal, whatever the key order of their dictionaries |
| `SchemaFingerprint.NormalIsInjective` | i3x_server/schemas/objecttype_schema.py:1663-1671 | Sorting the keys loses nothing: values with the same key-sorted form are equal |
| `SchemaMerge.FindAliases` | i3x_server/schemas/objecttype_schema.py:1609-1624 | Looking fingerprints up by their text, every definition is sent to the first one, in dictionary order, that is equal to it |
| `SchemaMerge.FirstEqualMerges` | i3x_server/schemas/objecttype_schema.py:1609-1624 | Such an alias map is idempotent and only joins equal definitions |
| `SchemaDedupe.InstallWinners` | i3x_server/schemas/objecttype_schema.py:1629-1630 | After the rewriting the document holds the dictionary of winners; no other container changes further |
| `SchemaDedupe.InstallMerged` | i3x_server/schemas/objecttype_schema.py:1629-1630 | The resulting structure of containers stands for the merged document and is still acyclic |
| `SchemaDedupe.DedupeDefsAndRewriteLocalRefs` | i3x_server/schemas/objecttype_schema.py:1604-1630 | In place, over shared containers: the document becomes the merge of its equal definitions, which keeps its meaning at every depth; without a definitions dictionary nothing changes |
| `SchemaMerging.MergeIsSpelledOut` | i3x_server/schemas/objecttype_schema.py:1604-1651 | A merged document keeps of equal definitions the first in dictionary order and no two equal ones; there and everywhere else every reference to a definition is renamed to the one kept, and nothing else changes |
| `SchemaMerging.RewriteRenames` | i3x_server/schemas/objecttype_schema.py:1633-1651 | Rewriting changes exactly the texts under "$ref" that name an aliased definition |
| `SchemaExpansion.Expand` | i3x_server/schemas/objecttype_schema.py:1578-1601 | Inlining terminates on every definition set, recursive ones included: unused definitions decrease, then the schema |
| `SchemaInlining.ExpansionHoldsLayers` | i3x_server/schemas/objecttype_schema.py:1578-1601 | What an expanded object holds, through any chain of references: every member of the outermost layer that has it, expanded with all names of the chain on the stack, "$ref" as the innermost layer has it; and everything unexpanded if the chain comes back to a name |
| `SchemaInlining.InlinedMembers` | i3x_server/schemas/objecttype_schema.py:1589-1596 | A reference to a definition that is none itself becomes an object with exactly the definition members and the siblings, each expanded, a sibling in the place of a member of its name |
| `SchemaExpansion.ExpansionKeepsMeaning` | i3x_server/schemas/objecttype_schema.py:1578-1601 | The expansion unfolds at least as far as the original, along the same tree |
| `SchemaExpansion.ExpansionAddsNothing` | i3x_server/schemas/objecttype_schema.py:1578-1601 | It unfolds no further than the original with one more level per unused definition |
| `SchemaCycles.ResidualIsCyclic` | i3x_server/schemas/objecttype_schema.py:1578-1601 | A resolvable reference left in the result belongs to a definition that refers, directly or not, to itself |
| `SchemaCycles.ResidualIffRepeats` | i3x_server/schemas/objecttype_schema.py:1578-1601 | For every schema, definitions and stack of resolvable names: a resolvable reference is left in the result exactly if some run of reference places, each in what replaces the one before, comes back to a name it has used or to one on the stack |
| `SchemaCycles.AcyclicIsFullyInlined` | i3x_server/schemas/objecttype_schema.py:1578-1601 | Acyclic definitions whose reference siblings hold no references are inlined without a rest |
| `SchemaCycles.FullyInlinedIffAcyclic` | i3x_server/schemas/objecttype_schema.py:1578-1601 | If, further, no sibling replaces a part that holds references, a rest is left exactly when the needed definitions are cyclic |
| `SchemaCycles.SiblingReferenceExample` | i3x_server/schemas/objecttype_schema.py:1589-1596 | A reference beside a reference to the same definition stays unresolved although nothing is cyclic: the run from one to the other returns to its name |
| `SchemaCollection.IterLocalDefsRefs` | i3x_server/api/v1/objecttype_helpers.py:395-408 | The references listed are exactly those anywhere in the value |
| `SchemaCollection.CollectTransitiveDefs` | i3x_server/api/v1/objecttype_helpers.py:411-426 | The worklist terminates with exactly the definitions reachable from the schema, unchanged |
| `SchemaCollection.CollectedDefsKeepMeaning` | i3x_server/api/v1/objecttype_helpers.py:411-426 | The collected definitions give the schema the meaning it had over all of them |
| `SchemaCollection.ClosedDefsSuffice` | i3x_server/api/v1/objecttype_helpers.py:411-426 | Definitions outside a closed set play no part in what a schema means |
| `JsonText.EscapePrefix` | i3x_server/schemas/objecttype_schema.py:664 | The escape of a character can be told from what follows it, surrogate pairs included |
| `JsonText.EscapeAllPrefix` | i3x_server/schemas/objecttype_schema.py:664 | A quoted string ends at its closing quote, whatever follows |
| `JsonText.DumpsPrefix` | i3x_server/schemas/objecttype_schema.py:664 | Equal texts come from equal values, whatever delimited text follows |
| `JsonText.DumpsIsInjective` | i3x_server/schemas/objecttype_schema.py:664 | Two string-keyed values serialise equally exactly if they are equal, key order included |
| `HashConsing.Pool.Share` | i3x_server/schemas/objecttype_schema.py:663-667 | A candidate container is pooled under its text, or an equal one already pooled takes its place |
| `HashConsing.Pool.Intern` | i3x_server/schemas/objecttype_schema.py:655-667 | Interning builds containers that spell out the input value and are all in the pool |
| `HashConsing.TextOf` | i3x_server/schemas/objecttype_schema.py:664 | The text of a structure of containers is that of the value it spells out |
| `HashConsing.OccurringIsPooled` | i3x_server/schemas/objecttype_schema.py:655-667 | Every container at any place of a result is the pool entry for the value at that place |
| `HashConsing.DeduplicateSchemaFragments` | i3x_server/schemas/objecttype_schema.py:651-669 | Every output equals its input structurally, and two containers anywhere in the outputs are the same object exactly if they serialise equally, exactly if they are equal |
| `ParentChains.ValidateParentChains` | i3x_server/mcp/model_access.py:141-153 | The memoised check accepts a parent map exactly if every chain reaches a root without a cycle or a missing element |
| `ParentChains.ChainIsUnique` | i3x_server/mcp/model_access.py:132-153 | An element has at most one chain from a root |
| `ParentChains.RootedUnlessCycle` | i3x_server/mcp/model_access.py:141-153 | Where no parent is missing, an element has a root exactly if its chain enters no cycle |
| `BrowsePath.Segments` | i3x_server/mcp/model_access.py:156-172 | With or without the memo: an answer exactly if the element has a root, the answer is the root-inclusive names, and the memo stays correct and only grows |
| `BrowsePath.LastSegment` | i3x_server/mcp/model_access.py:156-172 | The segments of an element are those of its parent followed by its own name |
| `BrowsePath.SegmentsAreUnique` | i3x_server/mcp/model_access.py:156-172 | An element has one list of segments, and it is not empty |
| `BrowsePath.BuildTrie` | i3x_server/mcp/model_access.py:258-264 | The trie lists under each parent and name exactly the elements with that parent and name, once each |
| `BrowsePath.NextMatches` | i3x_server/mcp/model_access.py:274-276 | One step of the resolution finds exactly the elements with the segment as name below any of the candidates |
| `BrowsePath.ModelAccessIndex.ResolveBrowsePath` | i3x_server/mcp/model_access.py:255-285 | The model is rejected exactly if a chain is broken; otherwise the answer is an element exactly if it is the only one with these segments, ambiguous exactly if there are several, and not found exactly if there is none |
| `BrowsePath.BrowsePathRoundTrips` | i3x_server/mcp/model_access.py:86-88 | The joined path leads back to its segments exactly if no name is blank or contains a slash; then it resolves to its element exactly if no other element has the same segments, and is ambiguous otherwise |
| `Texts.SplitJoin` | i3x_server/mcp/model_access.py:270 | Splitting a joined text gives the parts back exactly if no part contains the separator |
| `TypeIndex.LinkTypes` | i3x_server/mcp/model_access.py:205-210 | A type has the parent that its last entry with a resolvable parent names |
| `TypeIndex.TypeIsFirstKnownSpelling` | i3x_server/mcp/model_access.py:197-202 | A type is known exactly if one of its spellings is an alias, as it is, in lower case, expanded, or expanded in lower case, and the first one decides |
| `TypeIndex.DirectInstances` | i3x_server/mcp/model_access.py:211-225 | The direct instances of a type are exactly the assets and event sources filed under it by the instance table or by their own type |
| `TypeIndex.ExpandSubtypes` | i3x_server/mcp/model_access.py:226-233 | The index fails exactly if some listed type has no root; otherwise it counts the direct instances of a type and of the types that reach it |
| `TypeIndex.IndexIsTransitive` | i3x_server/mcp/model_access.py:226-235 | The instances of a type are exactly the direct instances of the listed types that reach it by zero or more parent steps |
| `TypeIndex.IndexFailsOnCycle` | i3x_server/mcp/model_access.py:229-231 | The index fails exactly if some listed type enters a cycle |
| `TypeIndex.TypeIndexes` | i3x_server/mcp/model_access.py:187-236 | The index as a whole fails exactly if some path of parents from a listed type meets a type twice; otherwise it holds the direct instances of every listed type, and for every type at or above a listed one exactly the direct instances of its listed subtypes and itself |
| `NameSearch.OrderIsTotal` | i3x_server/mcp/model_access.py:91-92 | Ordering by folded name and element ID is a total order |
| `NameSearch.BuildIndex` | i3x_server/mcp/model_access.py:95-110 | The index lists all elements in order, files each under its namespace and role in that order, and under exactly the trigrams of its folded name |
| `NameSearch.FindElementsByName` | i3x_server/mcp/model_access.py:337-345 | Intersecting trigram buckets and filtering gives exactly the sorted elements whose folded name contains the folded text, texts shorter than three characters included |
| `NameSearch.ContainedGrams` | i3x_server/mcp/model_access.py:108-110 | A name that contains the text has all trigrams of the text |
| `NameSearch.BucketsAreScans` | i3x_server/mcp/model_access.py:101-106 | The namespace and role buckets are the sorted linear scans |
| `NameSearch.PagesCoverOnce` | i3x_server/mcp/model_access.py:175-185 | Following nextOffset with any fixed limit terminates and hands out every remaining result once, in order, in full pages but the last |
| `NameSearch.SearchIsDeterministic` | i3x_server/mcp/model_access.py:337-345 | Nothing but the model decides the order of the results |
| `ContextCache.StepKeepsInv` | i3x_server/api/v1/objecttype_helpers.py:985-1110 | Every step of a request, refresh or model swap keeps the cache invariant |
| `ContextCache.RunKeepsInv` | i3x_server/api/v1/objecttype_helpers.py:985-1110 | So does every run from the start |
| `ContextCache.CachedContextMatchesItsTokens` | i3x_server/api/v1/objecttype_helpers.py:1078-1098 | The cached context was built from exactly the inputs whose tokens are stored with it |
| `ContextCache.OneBuildUnderTheLock` | i3x_server/api/v1/objecttype_helpers.py:1077-1092 | At most one build runs, and none for inputs whose context is cached |
| `ContextCache.OneRefreshInFlight` | i3x_server/api/v1/objecttype_helpers.py:1015-1019 | At most one scheduled refresh is in flight |
| `ContextCache.CallerGetsItsOwnContext` | i3x_server/api/v1/objecttype_helpers.py:1033-1110 | A caller that did not get a stale context got one for its own inputs, only callers that allow it get a stale one, and the recorded revision is the hash of what was served |
| `ContextCache.StaleAnswerIsRefreshed` | i3x_server/api/v1/objecttype_helpers.py:1070-1075 | A stale answer leaves a refresh in flight |
| `ContextCache.MemoKeeps` | i3x_server/api/v1/objecttype_helpers.py:252-262 | The memoised token is the hash of the list it is asked for |
| `ContextCache.ToolContextIsForTheCachedModel` | i3x_server/mcp/invocation.py:223-239 | The context read without waiting was built for a model with the revision of the cached one |
| `ContextRuns.CacheIsLastBuild` | i3x_server/api/v1/objecttype_helpers.py:1084-1098 | In every run the cache holds the last context built, under the tokens of its inputs, unless a lazy model build has cleared it since |
| `ContextRuns.BuiltIsServedAndCached` | i3x_server/api/v1/objecttype_helpers.py:1084-1110 | A finished build serves its caller the context of its own inputs, leaves it in the cache and frees the lock |
| `ContextRuns.FetchedIsAnswered` | i3x_server/api/v1/objecttype_helpers.py:1046-1075 | A caller with its inputs is served the cached context if its inputs are alike, else, if it allows that, the last context as stale with a refresh in flight for its model, and waits otherwise |
| `ContextRuns.AcquiredIsAnswered` | i3x_server/api/v1/objecttype_helpers.py:1077-1092 | Under the lock a caller is served a context built meanwhile for alike inputs, or builds |
| `ContextRuns.ServedWithoutBuilding` | i3x_server/api/v1/objecttype_helpers.py:1060-1098 | From a build until the next one or a lazy model build, everyone who asks with alike inputs is served that context, as current and without building |
| `ContextRuns.ToolFindsLastBuild` | i3x_server/mcp/invocation.py:223-239 | The context read without waiting is the last one built, exactly if it was built for a model of the served revision |
| `ContextRuns.CallersAskForTheirModel` | i3x_server/api/v1/objecttype_helpers.py:1022-1030 | A caller asks for the model it came with, a background refresh for the model served when it starts |
| `ContextRuns.WaitersGetOn` | i3x_server/api/v1/objecttype_helpers.py:1076-1077 | Whoever waits for the lock can take it, or someone is building |
| `ModelCache.LazyBuildSucceedsOnce` | i3x_server/bootstrap/dependencies.py:49-83 | Building lazily succeeds at most once per run, one build runs under the lock, and every request is answered with a model that was built |
| `ModelCache.CacheNeverEmptiesAgain` | i3x_server/bootstrap/dependencies.py:58-75 | Once there is a model there is one for the rest of the run, preloads and periodic refreshes included |
| `ModelCache.NoBuildAfterTheFirst` | i3x_server/bootstrap/dependencies.py:63-67 | Once there is a model, from whatever source, no request is building, then or at any later step |
| `ModelCache.CacheIsLastBuilt` | i3x_server/bootstrap/dependencies.py:49-83 | In every run the cached model is the one built last, by a request, the preload or a refresh |
| `ModelCache.RequestsGetTheLastModel` | i3x_server/bootstrap/dependencies.py:49-83 | A request awaits a running preload, is answered with the model built last, before or under the lock, and builds only where there is none |
| `McpTransport.StepKeepsInv` | i3x_server/api/mcp/monolithic.py:161-195 | Every publish, open, delete, shutdown and generator step keeps the transport invariant |
| `McpTransport.RunKeepsInv` | i3x_server/api/mcp/monolithic.py:161-195 | So does every run |
| `McpRuns.FramedIsPrefixOfPublished` | i3x_server/api/mcp/monolithic.py:161-183 | From the events alone: the messages framed on a stream are, in order and once each, a prefix of the notifications published to its session since it was opened, and all of them when it ends through the sentinel, which only a removed session sends; the queue of an open stream holds the rest, and the sentinel last once the session is removed |
| `McpRuns.RunFollows` | i3x_server/api/mcp/monolithic.py:161-183 | In every run the sessions, their logs and the session of each stream are those that the initialise, publish, open, delete and shutdown events determine |
| `McpRuns.TakesTheFirst` | i3x_server/api/mcp/monolithic.py:1017-1036 | The generator takes the first entry of its queue, frames a message and ends at the sentinel |
| `McpRuns.OpensOnlyOnSessions` | i3x_server/api/mcp/monolithic.py:1005-1014 | A stream is opened exactly on an identifier that leads to a session |
| `McpTransport.RemovedSessionsAreSealed` | i3x_server/api/mcp/monolithic.py:1052-1059 | The last entry queued on every stream of a removed session is the sentinel |
| `McpTransport.NothingFollowsTheSentinel` | i3x_server/api/mcp/monolithic.py:186-195 | Nothing is queued behind a sentinel, whatever happens next |
| `McpTransport.PublishKeeps` | i3x_server/api/mcp/monolithic.py:167-183 | Publishing a notification queues its message at the end of every open stream of the session its identifier leads to and of no other, anything else changes nothing, and the logs stay true |
| `NodeIds.CanonicalIsIdempotent` | i3x_server/domain/utils.py:97-127 | Canonicalising twice changes nothing exactly if the namespace URI looked up for an index has no semicolon, or its rest after the first one reads as a string or ByteString identifier |
| `NodeIds.PlainUrisReadBack` | i3x_server/domain/utils.py:97-127 | Without semicolons in namespace URIs the canonical form is stable |
| `NodeIds.CanonicalOfExpanded` | i3x_server/domain/utils.py:65-94 | Without semicolons in the namespace URIs the indexed and the expanded form of a node have the same canonical form |
| `NodeIds.SemicolonSplitsANode` | i3x_server/domain/utils.py:65-127 | Every namespace URI with a semicolon has a text whose indexed and expanded forms have different canonical forms |
| `NodeIds.FormsAgreeIff` | i3x_server/domain/utils.py:65-127 | For every text: the canonical forms of its indexed and expanded form agree exactly if expanding changes nothing, or the URI has no semicolon, or the identifier is already normal and the URI reads back, or the identifier is invalid and the URI does not read back |
| `NodeIds.AllFormsAgreeIff` | i3x_server/domain/utils.py:65-127 | The two forms agree for every text exactly if no namespace URI has a semicolon |
| `NodeIds.ReadShown` | i3x_server/domain/utils.py:97-127 | A canonical text reads back as the identifier it shows |
| `NodeIds.NormalizedOnce` | i3x_server/domain/utils.py:130-142 | Normalising an identifier twice changes nothing |
| `NodeIdSenses.SameCanonicalIff` | i3x_server/domain/utils.py:97-142 | Without semicolons in the namespace URIs two texts have one canonical form exactly if both say a node with a valid identifier and the same one: the same namespace and kind, and equal numbers, GUIDs or texts |
| `NodeIdSenses.CanonicalIsDefinedIff` | i3x_server/domain/utils.py:97-142 | A canonical form exists exactly for the texts that say a node whose number is at most 4294967295 or whose GUID is valid |
| `NodeIdSenses.MeansWhatIsRead` | i3x_server/domain/utils.py:97-127 | What is read from a text is what it says: with white space around it, a namespace URI, an index or neither, a kind and an identifier |
| `NodeIdSenses.CanonicalSaysTheSame` | i3x_server/domain/utils.py:97-127 | The canonical form says the node of the text, by its namespace URI where that is known |
| `NodeIdSenses.NodesApartIff` | i3x_server/domain/utils.py:97-127 | Canonical forms keep different nodes apart exactly if no namespace URI goes on behind another one like a string or ByteString identifier |
| `NodeIdSenses.NumberIsToInt` | i3x_server/domain/utils.py:130-137 | Digits are read as the number they stand for, each by its place |
| `NodeIdentity.BuildIdentity` | i3x_server/model/builder.py:462-479 | Each index maps a key to the first node filed under it |
| `NodeIdentity.NodeIdLeadsToFirst` | i3x_server/mcp/model_tools.py:217-261 | A NodeId leads to the first element with its canonical form |
| `NodeIdentity.IdentityRoundTrips` | i3x_server/mcp/model_tools.py:171-261 | Element ID to NodeId to element ID is the identity exactly for the nodes whose canonical form is defined and not met before |
| `NodeIdentity.DistinctNodesRoundTrip` | i3x_server/mcp/model_tools.py:171-261 | With defined and distinct canonical forms every element comes back |
| `NodeIdentity.AnyTextResolves` | i3x_server/mcp/model_tools.py:217-261 | Any NodeId text: white space is blank, what says no valid node has a bad format, a node leads to the first element that is the same node, and is missing if none is |
| `NodeIdentity.ElementComesBackIff` | i3x_server/mcp/model_tools.py:171-261 | An element comes back from its NodeId exactly if that says a valid node which no earlier element is |
| `NodeIdentity.DifferentNodesRoundTrip` | i3x_server/mcp/model_tools.py:171-261 | With NodeIds that say different valid nodes every element comes back |
| `NodeIdentity.UnknownElementIsMissing` | i3x_server/mcp/model_tools.py:171-214 | An element ID that no node has leads nowhere |
| `NodeIdentity.ResolveElementIdsToNodeIds` | i3x_server/mcp/model_tools.py:171-214 | Every item is resolved on its own, and the whole succeeds exactly if every item does |
| `NodeIdentity.ResolveNodeIdsToElementIds` | i3x_server/mcp/model_tools.py:217-261 | Every item is resolved on its own, and the whole succeeds exactly if every item does |
| `SubscriptionStream.IterStreamEvents` | i3x_server/application/services/subscription.py:304-344 | The generator emits exactly the specified events for any service and any consumer, and deactivates the stream exactly once on every exit after it started |
| `SubscriptionStream.SequencesIncrease` | i3x_server/application/services/subscription.py:313-342 | Sequence numbers strictly increase over the whole stream |
| `SubscriptionStream.CloseIsLast` | i3x_server/application/services/subscription.py:324-338 | At most one close is emitted, and nothing after it |
| `SubscriptionStream.EachEventAnswersTheService` | i3x_server/application/services/subscription.py:313-344 | A stream starts with its connection and the acknowledged updates and then answers the service round by round: it asks for what follows the last update sent, at first what was acknowledged or 0, passes updates on, keeps alive without any, and ends only with a close, an interruption or its consumer |
| `EventStreamText.SseEvents` | samples/subscription_client.py:32-48 | The line loop of the client computes the specified reading |
| `EventStreamText.FrameIsRead` | i3x_server/api/v1/subscription_routes.py:216-265 | One printed frame is read as the event it was printed for; comments vanish |
| `EventStreamText.CutStreamIsReadBack` | samples/subscription_client.py:32-48 | From whole frames and any part of a next one the client reads exactly the events of the whole frames |
| `EventStreamText.StreamIsReadBack` | i3x_server/api/v1/subscription_routes.py:203-265 | Generator, printer and client composed: the client sees the emitted batches in order and then at most one close |
| `EventStreamText.StepsAgree` | samples/subscription_client.py:35-48 | A line is treated as section 9.2.6 of the WHATWG HTML Standard says exactly if it is neither an event field without a value nor the end of a close event without data |
| `EventStreamText.LinesAreStandard` | samples/subscription_client.py:35-36 | Without carriage returns the lines are the ones of the standard |
| `EventStreamText.ClientFollowsTheStandard` | samples/subscription_client.py:32-48 | On every printed stream the client does what the standard says |
| `HttpCaching.ElementMatches` | i3x_server/http_caching.py:76-87 | The pieces of one list element match exactly if its tag is the expected one, also when commas inside a tag cut it |
| `HttpCaching.CommaSplitIsWeakComparison` | i3x_server/http_caching.py:81-87 | On every well-formed list the comma split computes weak comparison (sections 13.1.2 and 8.8.3.2 of RFC 9110) |
| `ConditionalGet.SetValues` | i3x_server/http_caching.py:119-128 | Setting a header replaces its values and no others |
| `ConditionalGet.ModelRevisionMiddleware.SendWithRevision` | i3x_server/http_caching.py:115-140 | One message is forwarded, changed or dropped as specified |
| `ConditionalGet.ModelRevisionMiddleware.RecordRevision` | i3x_server/http_caching.py:48-51 | A nonempty revision is recorded under its name |
| `ConditionalGet.RunApplication` | i3x_server/http_caching.py:105-142 | The middleware sends exactly the specified messages for everything an application records and sends |
| `ConditionalGet.ConditionalResponse` | i3x_server/http_caching.py:113-142 | For whatever an application sends after the start, complete or cut off: a 200 response whose representation the client has becomes a 304 whose body messages are dropped but for an empty one in place of each final one, so a whole body becomes one empty message; any other response keeps its status and its messages |
| `ConditionalGet.NotModifiedIff` | i3x_server/http_caching.py:45-142 | Which 200 responses become 304, from the recorded revisions and the header: none without a tag, that is unless tagging was enabled, nothing was uncacheable and some revision was recorded; with one, those of a client that accepts any representation or lists the tag, and none of a client that says nothing; the tag is the hash of the last revisions |
| `ConditionalGet.TagByRecords` | i3x_server/http_caching.py:45-73 | The tag of a representation, from what was recorded |
| `ConditionalGet.StartedHeaders` | i3x_server/http_caching.py:117-135 | The validators and the model revision are set as recorded, a 304 has no header about a body, every other header stays |
| `ConditionalGet.EarlyAnswerIsTheSame` | i3x_server/http_caching.py:90-99 | Answering early gives the same status, validators and empty body as building the representation, if no revision is recorded in between |

## Left out

* The OPC UA client, FastAPI routing, pydantic validation, OpenAPI text, logging, telemetry and settings: plumbing or sources that are not part of this model.
* Kind, stable element ID, reference classification, profile matching, namespace lookup and name normalisation: arbitrary functions of the node or reference; only identity translation looks inside NodeIds.
* Hashes (SHA-1, SHA-256), case folding, GUID normalisation and white space: arbitrary functions, with injectivity or idempotence stated where a result needs it.
* The order of child lists and of targets in the relationship map is not specified; membership and absence of duplicates are.
- ModelBuild.Build: the metadata, semantic roles, confidences and instance tables of the built nodes are not modelled, because they follow from one node each.
- PathSearch.TraceRelationshipPath: the element summaries and the model revision in the answer are not modelled, because they are lookups by element.
- SchemaMerge.Fingerprint: the repr fallback for values that are not JSON is left out, and dictionary keys are strings.
- Schema.MergedKeepsMeaning: definitions have to be dictionaries, as the registry demands; a definition of another kind is still merged but no meaning is claimed.
- SchemaMerge.RewriteLocalRefs: the containers have to be acyclic, as the original recursion demands too.
- HashConsing.DeduplicateSchemaFragments: inputs are values, so sharing inside an input is not modelled; Dafny characters leave out lone surrogates.
- JsonText.DumpsIsInjective: numbers, booleans and null are given by their text, of a type that holds no delimiter and does not begin like a string or a container.
- History.FixtureHistoryManager.UpdateHistory: values that asyncua itself records on live writes are left out, because that code is not part of this model; a missing cap is the cap 0.
- BrowsePath.Segments: paging and node summaries of other tools, and the composition property listing, are left out, because they add only lookups.
- TypeIndex.DirectInstances: the lower-case and expanded spellings of a type name are arbitrary functions.
- TypeIndex.TypeIndexes: the index is keyed by sets, so the order of its instance lists and its reuse for the same context object are left out; NameSearch proves the same ordering for its own lists.
- NameSearch.FindElementsByName: the intersection starts from any bucket, not the smallest, because the order of an intersection does not show.
- ContextCache.OneBuildUnderTheLock: the lock is taken to exist, as application start-up creates it; object type lists are taken not to change once the client serves them.
- ModelCache.LazyBuildSucceedsOnce: the periodic refresh may start at any time, which allows more interleavings than waiting for the preload does.
- McpRuns.FramedIsPrefixOfPublished: a timed-out queue read is taken to lose no message, and session identifiers to be unique; the JSON text of a message and the POST request's checks are left out.
* The caches and the MCP transport are modelled on values: queues, tasks and sessions are named by identifiers, so that runs of interleaved steps can be stated; their aliasing as objects is in those names only.
- NodeIds.CanonicalIsIdempotent: decimal digits are the ten ASCII digits, so the exception that other Unicode digits can cause is left out.
- SubscriptionStream.IterStreamEvents: the service is any function from the round and the last sequence number to a reply; an exception, a cancellation and a consumer that closes the generator all leave through the finally clause.
- EventStreamText.StreamIsReadBack: the JSON text of a batch is an arbitrary text without line breaks; UTF-8 decoding and the byte order mark are left out.
- HttpCaching.CommaSplitIsWeakComparison: only the first If-None-Match header counts, as in the code; a list that is not well-formed is not compared.
- ConditionalGet.EarlyAnswerIsTheSame: the early response starts from no headers of its own, as an empty 304 response does.
* Value, write and live history paths, the OPC UA subscription runtime, benchmarks, the HTTP sample transport and the frontend: timing, network or user interface.
* The copies of helpers in `i3x_server/api/v1/monolithic.py`: they add no further property.
