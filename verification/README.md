# ERMrest: policy, queries, history and identifiers, verified

ERMrest compiles URL paths and access policies into SQL and keeps some
stateful bookkeeping of its own. This project models those parts in Dafny and
proves that each compiled or optimised form means the same as the plain one,
and that the bookkeeping stays right over every run.

SQL is a small abstract syntax with three-valued evaluation over rows that may
hold NULL (`sql.dfy`); no SQL text is modelled.

| files | what they model |
|---|---|
| `sql.dfy`, `aliases.dfy`, `paths.dfy` | conditions and subqueries, row-instance aliases, the entity path that a URL builds |
| `projections.dfy`, `dynacl.dfy`, `dynaclproofs.dfy`, `dynaclscope.dfy` | ACL binding documents, the compiler of dynamic ACLs with its two optimised forms, and their equivalence and scope |
| `pathmeaning.dfy`, `policymeaning.dfy`, `viewmeaning.dfy` | joins, filters, paths, binding documents and policy views read directly over rows, and that the compiled forms say the same |
| `joins.dfy`, `views.dfy` | outer joins, policy views of tables, lifting of row policies, skipping of column masks |
| `entityquery.dfy`, `entityresults.dfy`, `entitydelete.dfy`, `entitydeletecase.dfy` | the entity query with DISTINCT ON, and entity deletion |
| `sorting.dfy`, `paging.dfy` | ORDER BY, page filters, page walks |
| `rights.dfy`, `acledits.dfy`, `aclmodel.dfy` | access decisions, ACL edits, digests and the memo cache of rights |
| `spans.dfy`, `history.dfy`, `redaction.dfy`, `truncation.dfy` | validity ranges, amending, redacting and truncating history |
| `upsert.dfy` | PUT of entities |
| `pools.dfy` | the connection pool registry under interleaving threads |
| `identifiers.dfy` | names of at most 63 bytes |
| `utf8.dfy`, `urllexer.dfy` | percent-encoded text, the URL lexer and string reassembly |

`dafny verify dfyconfig.toml` checks everything.

## Conventions and assumptions

- Python asserts are modelled as absent, as in a deployment with optimisation
  on (ermrest/__init__.py:39).
- PostgreSQL is a definition here: relational operators, NULL, UNIQUE, ON
  CONFLICT DO NOTHING, half-open ranges and `DISTINCT ON` mean what its manual
  says. Stored non-nullable keys are unique and non-null (`KeyIdentifies`,
  `KeyUnique`, `StoredKeys`), and stored RIDs come from their sequence.
- Time, the client, random names, digests and the order in which a set or a
  cursor is read are parameters or left open, so the results hold for each.
- A column of a row instance that nothing binds reads as NULL, where PostgreSQL
  refuses the statement. The results about meaning are for bindings whose
  clauses mention no such instance (`ClausesScope`).
- Text and regular-expression operators are uninterpreted three-valued tests.

## What the code does differently from what one may expect

- The form of a dynamic ACL that leaves the base table out is chosen without
  looking at later filters. If one of them names `base`, the subquery refers to
  a table instance that is gone (`DroppedBaseDangles`, exactly then;
  `DanglingExample`).
- The decision on a foreign key stops at its first column that is not allowed,
  so more roles can turn undecided into refused (`ColumnsMonotoneUnlessLaterDenied`,
  `FkeyEnumerationCanDrop`).
- The check before a delete reads the other path elements through their select
  views while the victims are found over bare tables. It refuses exactly if a
  victim seen in that way fails the policy (`DeleteRefusedExactly`), so on longer
  paths a row that the policy does not admit can go (`UnadmittedRowDeleted`).
- Rows of a table whose keys all have nullable columns cannot be deleted: the
  condition for a nullable column has a malformed placeholder
  (ermrest/ermpath/resource.py:2080), so that the statement is never built
  (`DeleteGoesAheadExactly`).
- Without a usable key an entity query merges rows that show the same in the
  listed columns (`FallbackMergesExactly`).
- DELETE of the whole ACL set of a catalog is always refused
  (`CatalogAclsNeverCleared`). PUT of one empties the names that the document
  lacks and needs an owner entry in it (`CatalogDocumentExactly`).
- `cache_rights` keys on `anon_mutation_ok` and does not pass it on
  (ermrest/model/misc.py:513-519); the cache still agrees with what it computes.
- The visibility query of history truncation mixes AND and OR without
  parentheses, so one open-ended table makes all visible (`VisibleAfterExactly`,
  `GoneTableKept`).
- Redaction leaves versions that straddle an end of the range (`ExposedExactly`,
  `StraddlingValueStays`).
- A registered pool may be closed (`RegisteredPoolCanBeClosed`). The danger
  arises exactly when a thread pops a pool that another put back and has yet to
  check (`EndangersExactly`, `RegisteredStaysOpen`).
- The probe for rows to insert takes a row without any key information for
  matched (`ProbeExactly`), so such a row is inserted on the right to update
  alone (`KeylessRowInserted`).
- Repeating a PUT changes nothing when every unique key has the RID or includes
  a key of client-managed columns. On a table with such a key and no further
  row constraint it is idempotent exactly then (`IdempotentExactly`).
- Beyond 32 metakey columns both checks for duplicates look at the first 32 only
  (ermrest/ermpath/resource.py:664), so distinct rows can be refused
  (`AcceptsDistinctExactly`, `WideKeyRefusesDistinct`).
- A raw plus sign in a URL is a lexical error (`PlusNeverLexes`).

## Model

| member | source | states |
|---|---|---|
| Aliases.AliasSplitsBack | ermrest/ermpath/resource.py:81-83 | For an empty or well-shaped prefix p, the nested alias `p + "t" + k` is itself well-shaped and splitting it on `t` gives back exactly p and k, so a policy subquery can name the row of its outer query |
| Aliases.AliasInjective | ermrest/ermpath/resource.py:1083-1095 | Two aliases are equal only if prefix and position are |
| Aliases.NoCapture | ermrest/ermpath/resource.py:1137-1151 | A nested alias is never an alias of the outer query nor its own prefix, so no subquery captures an outer row |
| Paths.LinkedWellFormed | ermrest/ermpath/resource.py:1848-1892 | Adding a link keeps positions equal to indices and every context and alias earlier than its user |
| Paths.FilteredWellFormed | ermrest/ermpath/resource.py:1828-1833 | Adding a filter that names elements of the path keeps the path well-formed |
| Paths.OnClauseInScope | ermrest/ermpath/resource.py:1137-1151 | Every ON clause of a well-formed path mentions only its own row and one earlier row |
| Paths.FilterMentions | ermrest/model/predicate.py:189-236 | The SQL of a user filter mentions exactly the row instances that its column names resolve to |
| Paths.ColumnFacts | ermrest/model/key.py:86-92 | Columns are found by name wherever they stand, and a key is primary exactly if it is not empty and no column named in it is nullable |
| Paths.FirstNonNullKeyExactly | ermrest/model/predicate.py:88-103 | The key that the base predicate joins on is the first primary one, if there is any |
| Paths.EntityPath.SetBaseEntity | ermrest/ermpath/resource.py:1795-1805 | Succeeds exactly on an empty path and yields the one-element path; otherwise nothing changes |
| Paths.EntityPath.SetContext | ermrest/ermpath/resource.py:1824-1826 | Fails exactly on an unbound alias; otherwise the alias position becomes the context, and the path stays well-formed |
| Paths.EntityPath.AddFilter | ermrest/model/name.py:369-382 | Fails exactly when some column name of the filter does not resolve, leaving the path as it was; otherwise the validated filter lands on the current element and the path stays well-formed |
| Paths.EntityPath.AddLink | ermrest/ermpath/resource.py:1848-1892 | Fails exactly on an empty path, a linked table without the select right or a reused alias; otherwise the element is appended with position, context and link of the call, old elements and aliases stay, and the path is well-formed |
| Projections.CompileProjection | ermrest/model/misc.py:373-494 | The loop that grows a path object from an ACL binding document yields the path of the document, or its first error |
| Projections.WalkShape | ermrest/model/misc.py:373-494 | Every path compiled from document steps starts with the base table joined back by its key, has inner joins only, and carries only filters on its own elements |
| Projections.ValidatedIsPlain | ermrest/model/predicate.py:426-450 | Validation turns every filter tree, through negation, disjunction and conjunction, into tests of resolved columns |
| DynAcl.GetDynaclClauses | ermrest/ermpath/resource.py:64-135 | The loop over bindings, which deletes filters and replaces elements of each freshly compiled path in place, produces the clause list of the bindings in scope, True for a static decision, False for an empty list |
| DynAcl.InlineBase | ermrest/ermpath/resource.py:95-115 | Deleting the base filter in place and re-targeting the others at the outer row gives their conjunction over the outer alias |
| DynAclEquivalence.SplitWhere | ermrest/ermpath/resource.py:1977-1990 | A condition about outer rows moves out of a subquery WHERE without changing which outer rows find a match |
| DynAclEquivalence.GenericReduced | ermrest/ermpath/resource.py:91-92 | For a stored row and a unique non-null key, the self-joined subquery is True exactly if the rest of the path matches from that very row |
| DynAclEquivalence.MangledFilter | ermrest/ermpath/resource.py:98-106 | A filter re-targeted at the fake element of the split prefix has, for the outer row, the three-valued truth the original has for the base row |
| DynAclEquivalence.InlinedEquivalent | ermrest/ermpath/resource.py:95-115 | The inlined conjunction is True on exactly the stored rows where the generic subquery is |
| DynAclEquivalence.DroppedBaseEquivalent | ermrest/ermpath/resource.py:116-124 | Leaving the base table out of the subquery keeps it True on exactly the same stored rows, when no later filter names the base |
| DynAclEquivalence.ClauseEquivalent | ermrest/ermpath/resource.py:87-128 | Whichever form the compiler chooses, the clause agrees with the generic subquery on every stored row, unless it dropped a base table that a filter still names |
| DynAclScope.GenericScope | ermrest/ermpath/resource.py:91-92 | The generic subquery mentions no free row instance but the outer one |
| DynAclScope.DroppedBaseScope | ermrest/ermpath/resource.py:116-124 | The only instances a base-less subquery can mention free are the outer row and the dropped base |
| DynAclScope.DroppedBaseDangles | ermrest/ermpath/resource.py:116-124 | A base-less subquery refers to the table instance that was dropped if and only if some filter of the document names the base |
| DynAclScope.BaseFilterDangles | ermrest/ermpath/resource.py:116-124 | Any binding whose document joins one table outbound and then filters on a column of the base compiles to a subquery that refers to the dropped table instance, whatever the model and test |
| DynAclScope.DanglingExample | ermrest/ermpath/resource.py:116-124 | A concrete model and binding for which the clause compiled for the row t0 asks about t0t0, which nothing binds |
| DynAclScope.ClausesScope | ermrest/ermpath/resource.py:64-135 | All clauses of sound bindings are closed over the outer row |
| DynAclScope.ClausesMeanPolicy | ermrest/ermpath/resource.py:64-135 | For an undecided access, some compiled clause is True of a stored row if and only if some binding in scope has a generic subquery that finds the row |
| DynAclScope.BindingMeansGeneric | ermrest/model/predicate.py:84-146 | The clause of one sound binding means its generic subquery on every stored row |
| PathMeaning.JoinMeaning | ermrest/model/name.py:40-50 | The compiled ON condition is True exactly if each referring column has the value of the column it refers to, none null: outbound from the left row to the right one, inbound from the right row to the left one; of several alternatives, some visible one |
| PathMeaning.LinkLeadsTo | ermrest/ermpath/resource.py:1870-1877 | Outbound a link leads to the table referred to, inbound to the one that refers |
| PathMeaning.FilterMeaning | ermrest/model/predicate.py:189-236 | The compiled condition of a user filter has the three-valued truth of the filter over the rows of the path, by position |
| PathMeaning.ProjectionMeaning | ermrest/model/predicate.py:131-144 | The final test passes exactly if the value is one of the attributes of the client, or is an array that shares one with them, or, for the type nonnull, is not null |
| PathMeaning.GenericMeaning | ermrest/ermpath/resource.py:1973-1990 | The generic subquery finds a stored row exactly if the other elements of the path have rows that satisfy, with it as the first, all links and filters |
| PolicyMeaning.GenericMeansDocument | ermrest/model/misc.py:373-494 | ... and that is so exactly if the binding document admits the row, read step by step: a join goes from the named or current row along a reference to a row of the other table, a filter must be True of the rows it names, and the value reached at the end must speak for the client |
| PolicyMeaning.ClauseMeansDocument | ermrest/ermpath/resource.py:64-135 | Whichever form the compiler chooses for a sound binding, its clause is True of a stored row exactly if the document admits the row |
| PolicyMeaning.ClausesMeanDocuments | ermrest/ermpath/resource.py:64-135 | The compiled clause list is True of a stored row exactly if the decision is static or some binding in scope has a document that admits the row |
| Joins.LiftRowCondition | ermrest/ermpath/resource.py:1176-1201 | Moving a row condition from a filtered subquery into the ON clause preserves the joined rows, in order and number, if and only if the join is inner or left or no row fails the condition; otherwise it adds rows |
| Joins.RightJoinLiftDiffers | ermrest/ermpath/resource.py:1176-1194 | A right join for which lifting changes the result: the guard on the join kind is needed |
| Joins.JoinedExactly | ermrest/ermpath/resource.py:1176-1201 | A join of any kind yields the pairs that fit, null-extended left rows in left and full joins, and null-extended right rows in right and full joins, and nothing else |
| PolicyViews.PositiveXorNegative | ermrest/model/table.py:613-632 | For every clause list and row, exactly one of the positive and the negative policy condition is True, whatever is Unknown |
| PolicyViews.ViewsPartition | ermrest/model/table.py:613-632 | The positive and the negative view of a table have no row in common and together are the table, as bags |
| PolicyViews.ColumnRefusalsExactly | ermrest/model/table.py:593-632 | The view that tests one column finds exactly the stored rows that fail the effective policy of the column |
| PolicyViews.SkippedMaskSound | ermrest/model/column.py:463-512 | If a column is neither refused nor restricted beyond its table, each row passing the table policy passes the effective policy of the column, with table bindings overridden by column bindings |
| PolicyViews.SkippedMasksChangeNothing | ermrest/model/table.py:560-565 | When all column masks of a table are skipped, no readable column of a row that passes the table policy would have been masked |
| PolicyViews.TablePolicyRowLocal | ermrest/model/table.py:613-632 | The compiled row policy of a table mentions no row but its own |
| PolicyViews.LiftedElementSame | ermrest/ermpath/resource.py:1159-1201 | Whatever an element joins to, with its policy lifted or not, the joined rows are those of joining the policy view |
| PolicyViews.LiftIgnoresNegation | ermrest/ermpath/resource.py:1176-1194 | The lifting branch builds the positive policy even when the negative view of a select is asked for; no caller asks for that |
| PolicyViews.UndecidedColumnHasClause | ermrest/model/column.py:463-512 | For an undecided column some binding is in scope, so that its clause list is not empty |
| ViewMeaning.ViewShowsGranted | ermrest/model/table.py:567-644 | The positive view of a table is, in order, the stored rows that the table policy grants; in each listed column it shows the value if the decision on the column is yes or a binding of the table, overridden by name by the column, has a document that admits the row, and null if not; a column refused outright is not masked |
| EntityQuery.FoundFromViews | ermrest/ermpath/resource.py:1959-1972 | The whole FROM clause with lifted policies yields the rows of the joins over policy views |
| EntityQuery.FoldMember | ermrest/ermpath/resource.py:1959-1990 | The FROM clause of an inner-join path yields exactly the assignments of view rows to elements that satisfy every ON clause |
| EntityQuery.FoundMember | ermrest/ermpath/resource.py:1900-1990 | FROM and WHERE together yield exactly the assignments that satisfy all joins and filters |
| EntityQuery.UsableKeysExactly | ermrest/ermpath/resource.py:1936-1947 | The keys chosen from are exactly the non-nullable keys with a select right |
| EntityQuery.ReadableExactly | ermrest/ermpath/resource.py:1916-1923 | The test before a query passes exactly if no column that the client can list has its data refused |
| EntityResults.ViewKeyUnique | ermrest/model/table.py:607-644 | A key none of whose columns is masked still identifies rows in the policy view |
| EntityResults.EntityQueryExact | ermrest/ermpath/resource.py:1900-1990 | The compiled query with DISTINCT ON a unique, unmasked key, or without it on a one-element path, returns each entity once, and exactly the view rows of the context table that some assignment of the other elements completes |
| EntityResults.CompiledEntityQueryExact | ermrest/ermpath/resource.py:1936-1990 | The same for the key that the compiler chooses: the shortest usable one |
| EntityResults.ResultCompleteExactly | ermrest/ermpath/resource.py:1900-1990 | Whatever the key, masked or not, a result has only wanted rows, and it has all of them if and only if the path has one element or no two different wanted rows agree on the key |
| EntityResults.FallbackMergesExactly | ermrest/ermpath/resource.py:1942-1955 | Without a usable key two found entities become one row if and only if they show the same in every column that the client can list |
| EntityResults.ViewMeansPolicy | ermrest/model/table.py:567-644 | A row is in the positive view if and only if it is a stored row whose access is decided or admitted by a binding of the table in scope, with its masked columns hidden |
| ViewMeaning.WantedMeaning | ermrest/ermpath/resource.py:1900-1990 | A row is wanted of a path with user filters exactly if a row can be chosen from the view of each element, with it as that of the context element, such that all links and filters hold |
| ViewMeaning.DeleteAdmitsMeaning | ermrest/ermpath/resource.py:2038-2043 | The delete check lets through exactly the rows that the delete policy of their table grants |
| EntityDelete.RefusalWitness | ermrest/ermpath/resource.py:2038-2043 | The check query over the negative delete view finds exactly the assignments over bare context rows and readable rows of the other elements whose context row fails the delete policy |
| EntityDelete.IndexableExactly | ermrest/ermpath/resource.py:2051-2064 | Victims can be matched exactly on a non-empty list of columns all of which the client can list |
| EntityDelete.DeleteRefusedExactly | ermrest/ermpath/resource.py:2028-2043 | A delete is refused if and only if the right on the table is refused, or, for a writable table, a column that the client can list may not be read, or the right is undecided and some victim that the client can see through the other elements fails the delete policy; for paths of any length |
| EntityDelete.DeleteGoesAheadExactly | ermrest/ermpath/resource.py:2028-2087 | A delete goes ahead if and only if the right on the table is not refused, no seen victim fails an undecided one, the table is writable with readable columns and a listed key without nullable columns, and some row of the context table satisfies the path |
| EntityDelete.BadVictimDeletedExactly | ermrest/ermpath/resource.py:2028-2087 | So in an undecided delete, a found entity that the policy does not admit is deleted if and only if there is one, none of those seen fails the policy, and nothing else stands in the way: a writable table, readable columns and a listed key without nullable columns |
| EntityDelete.OpenDeleteRefusedExactly | ermrest/ermpath/resource.py:2028-2043 | When the client can read the other elements in full, some seen victim fails the delete policy if and only if some found one does, and an undecided delete of a writable table with readable columns is refused exactly then |
| EntityDelete.SingleElementDelete | ermrest/ermpath/resource.py:2038-2043 | On a one-element path an undecided delete of a writable table with readable columns is refused if and only if some victim fails the delete policy, and one that goes ahead has only admitted victims |
| EntityDelete.HiddenNeighbourPassesCheck | ermrest/ermpath/resource.py:2038-2043 | When the client can read no row of another element, no victim is seen and the check query finds nothing, whatever the delete policy says |
| EntityDeleteCase.UnadmittedRowDeleted | ermrest/ermpath/resource.py:2028-2087 | A catalog of two tables, a client and a two-element path: the delete goes ahead and removes a row that the delete policy does not admit, since the row that leads to it is hidden from the client |
| EntityDelete.DeleteRemovesExactlyVictims | ermrest/ermpath/resource.py:2045-2087 | A delete that goes ahead, matching on the shortest key without nullable columns, removes the stored rows that the path finds and keeps all others |
| Paging.SortComponents | ermrest/ermpath/resource.py:306-335 | For a page given by its end the query sorts by the reversed keys and then by the keys; otherwise by the keys alone |
| Paging.PrecedesTransitive | ermrest/ermpath/resource.py:319-320 | The order given by DESC NULLS FIRST and ASC NULLS LAST over any list of keys is transitive |
| Paging.PrecedesTrichotomy | ermrest/ermpath/resource.py:319-320 | Of two key tuples, NULLs included, exactly one holds: the first precedes, they are equal, the second precedes |
| Paging.ReverseSortReverses | ermrest/ermpath/resource.py:306-335 | The reversed sort keys order key tuples exactly backwards |
| Paging.PageFilterExact | ermrest/ermpath/resource.py:240-303 | For any key length, directions and NULL pattern, the filter is True exactly for rows strictly after (or before) the boundary in the sort order |
| Paging.PagePartition | ermrest/ermpath/resource.py:240-303 | After, before and equal to the boundary split all rows three ways |
| Paging.BetweenExact | ermrest/ermpath/resource.py:1677-1688 | With both boundaries given, exactly the rows strictly between them are kept |
| Paging.AfterPageExact | ermrest/ermpath/resource.py:1991-2002 | A page requested after the k-th row of a uniquely sorted result is the next `limit` rows |
| Paging.BeforePageExact | ermrest/ermpath/resource.py:1991-2002 | A page `@before(b)` with limit n is, in normal order, the last min(n, m) of the m rows preceding b |
| Paging.WalkYieldsPrefix | ermrest/ermpath/resource.py:1677-2002 | Requesting each page after the last row of the one before yields consecutive stretches of the sorted result |
| Paging.WalkComplete | ermrest/ermpath/resource.py:1677-2002 | A walk takes at most one page more than there are rows, and it meets an empty page exactly when it has yielded every row, once and in order |
| Paging.PageExists | ermrest/ermpath/resource.py:1991-2002 | Every page request has an answer, except one given by its end alone without a limit, which has none |
| Paging.WalkReachesEnd | ermrest/ermpath/resource.py:1677-2002 | Any walk can be followed to its end, where it has yielded every row of the sorted result once and in order |
| Sorting.ReverseLimitResort | ermrest/ermpath/resource.py:1991-2000 | Sorting backwards, limiting and sorting again gives the end of the result in normal order |
| Rights.NoRolesNoRights | ermrest/model/misc.py:731-780 | A client without roles has no right on a catalog, schema, table or column |
| Rights.RightsMonotone | ermrest/model/misc.py:731-780 | More roles never lower a decision, under False < None < True, for catalogs, schemas, tables, columns and keys, through inheritance, overrides, binding scopes and the anonymous rule |
| Rights.BaseMonotone | ermrest/model/misc.py:731-780 | The same for the decision before the rules written into table and column |
| Rights.DataRightMonotone | ermrest/model/column.py:524-540 | The same for the right to the data of a column, with the rules for system columns |
| Rights.SufficientExactly | ermrest/model/misc.py:146-155 | A right suffices for another exactly if it brings it directly or brings one that suffices: owner brings create and write; write brings insert, update and delete; update and delete bring select; create, insert and select bring enumerate |
| Rights.InScopeExactly | ermrest/model/misc.py:362-371 | A binding is in scope exactly for a client that has one of its roles, and for rights that it names or that one it names suffices for |
| Rights.FixedRules | ermrest/model/column.py:95-108 | What no one may do, owners included, and that nothing else is fixed: author and time of a change, identity and creator of a row, the managed columns and rows of the registry, and tables that a past snapshot does not have |
| Rights.ColumnDecision | ermrest/model/column.py:95-111 | The decision on a column is yes exactly if nothing refuses it and an ACL, ownership of the table or the right on it grants it, and undecided exactly if nothing refuses it, none of these grants it, and a binding of the table, overridden by name by the column, is in scope |
| Rights.TableDecision | ermrest/model/table.py:118-133 | The same for a table, on whose decision only its own bindings bear |
| Rights.KeyDecision | ermrest/model/key.py:261-271 | A key is never undecided: it can be enumerated exactly if each of its columns can, and reading none of them is refused |
| Rights.FkeyDecision | ermrest/model/key.py:572-586 | A foreign-key reference is enumerable only if its key and columns are, updates and inserts are free where no ACL of its own speaks, and ACLs, ownership and the bindings of it and its table decide all else |
| Rights.DataRightExactly | ermrest/model/column.py:524-540 | No one updates the system columns; RID, RCT and RCB are inserted by owners of the catalog alone, but a RID stays undecided for others; all else is the right on the column |
| Rights.ColumnsAllowedMonotone | ermrest/model/key.py:493-498 | A static yes on all columns of a foreign key survives more roles |
| Rights.FirstStop | ermrest/model/key.py:493-498 | The decision on a column list is refused, or undecided, exactly if some column has that decision and all before it are allowed |
| Rights.ColumnsMonotoneUnlessLaterDenied | ermrest/model/key.py:493-498 | The decision on a column list drops with more roles if and only if there are columns i before j such that with fewer roles those before i are allowed and i is undecided, and with more roles those before j are allowed and j is refused |
| Rights.FkeyRightsMonotoneUnlessLaterDenied | ermrest/model/key.py:572-586 | The decision on a foreign-key reference drops with more roles if and only if it is about enumeration, was not refused before, and the columns drop for select in that way; every other right on it is monotone |
| Rights.CompositeFkeyDecisionCanDrop | ermrest/model/key.py:493-498 | A policy and two role sets for which it does drop |
| Rights.FkeyEnumerationCanDrop | ermrest/model/key.py:572-586 | ... and with it the right to enumerate the reference |
| Rights.OwnerOfParent | ermrest/model/misc.py:757-764 | Owning the parent decides every right on a resource: all, but for the hard-coded exceptions |
| Rights.OwnerOfAncestor | ermrest/model/misc.py:731-780 | Owning any ancestor makes every right on each descendant schema, table and column True whatever ACLs lie between, exactly apart from the system-column, registry and history rules |
| AclEdits.CatalogDocumentExactly | ermrest/url/ast/model.py:360-387 | PUT of a whole ACL document on a catalog succeeds if and only if the client owns the catalog, every stored name that the document lacks can be emptied, the document has an owner entry that keeps the client an owner, and each entry is an acceptable list under a supported name; the catalog then has exactly the document and emptied entries for the names it lacks, and the client still owns it |
| AclEdits.CatalogAclsNeverCleared | ermrest/model/misc.py:704-729 | DELETE of the whole ACL set of a catalog is always refused: emptying its owner list on the way fails the ownership check |
| AclEdits.EditKeepsOwner | ermrest/model/misc.py:642-729 | After any successful non-purging edit the editor still owns an edited catalog or schema, and no other resource has changed |
| AclEdits.RunKeepsOwner | ermrest/model/misc.py:642-729 | After any run of successful edits the editor owns every catalog and schema edited along the way |
| AclEdits.RunKeepsSubtree | ermrest/model/misc.py:642-729 | ... and holds every right on everything below it, but for the hard-coded exceptions |
| AclEdits.RunKeepsOrder | ermrest/model/misc.py:642-729 | Over any run of successful edits, where anonymous changes are not permitted, no ACL is stored under an unsupported name, and none but those for enumerating and reading is opened to everyone |
| AclEdits.SupportedNames | ermrest/model/column.py:29-34 | Resources support ACLs for known rights only: ownership on catalogs, schemas and tables, creation on catalogs and schemas |
| AclModel.GrantsByMembers | ermrest/model/misc.py:204-218 | The digest answers a right exactly as the named ACL and those sufficient for it do |
| AclModel.AclDict.Digest | ermrest/model/misc.py:204-218 | The digest loop rebuilds, for every right, the members of the ACL and of the sufficient ones, and empties the rights cache |
| AclModel.AclDict.SetItem | ermrest/model/misc.py:236-238 | Stores the ACL, rebuilds the digest and empties the cache |
| AclModel.AclDict.DelItem | ermrest/model/misc.py:240-245 | Removes the ACL, or empties it where it cannot be removed; digest and cache follow |
| AclModel.AclDict.Update | ermrest/model/misc.py:247-251 | Merges a document into the ACLs; digest and cache follow |
| AclModel.AclDict.Clear | ermrest/model/misc.py:253-259 | Removes all ACLs, or empties every supported one; digest and cache follow |
| AclModel.AclDict.Intersects | ermrest/model/misc.py:261-262 | True exactly if the ACLs grant the right to one of the roles |
| AclModel.DynaclDict.Replace | ermrest/model/misc.py:301-309 | Clearing and refilling leaves exactly the new bindings and an empty cache |
| AclModel.Catalogue.SharedRight | ermrest/model/misc.py:512-521 | The cached decision shared by all resources is what recomputation gives, and the cache still agrees afterwards |
| AclModel.Catalogue.OwnRight | ermrest/model/table.py:118-133 | The decision of tables, columns and foreign keys, answered through nested cached queries, is what recomputation gives, and the cache still agrees |
| AclModel.Catalogue.InheritedRight | ermrest/model/misc.py:757-764 | Inheritance through cached parent queries decides as recomputation does |
| AclModel.Catalogue.DynamicPart | ermrest/model/misc.py:766-777 | The loops over own and parent bindings decide as the definition does |
| AclModel.Catalogue.KeyRight | ermrest/model/key.py:261-271 | A key is decided by its columns, with a cache that still agrees |
| AclModel.Catalogue.ColumnsRight | ermrest/model/key.py:493-498 | The scan of the columns stops at the first one that is not allowed |
| AclModel.Catalogue.SetAcl | ermrest/model/misc.py:674-702 | Performs the edit or fails with the same error; the cache agrees with the new policy |
| AclModel.Catalogue.DeleteAcl | ermrest/model/misc.py:704-729 | Performs the removal or fails with the same error; the cache agrees with the new policy |
| AclModel.Catalogue.DeleteAllAcls | ermrest/model/misc.py:704-729 | Clears the ACLs, or empties them one by one until an ownership check fails; the cache agrees |
| AclModel.Catalogue.PutDocument | ermrest/url/ast/model.py:357-387 | PUT of an ACL document: the loops over stored and given names, with a refusal anywhere ending them, perform the edits one by one or fail with the same error; the cache agrees with the new policy |
| AclModel.Catalogue.SetAcls | ermrest/model/misc.py:642-672 | Replaces the ACL document or fails with the same error; the cache agrees with the new policy |
| AclModel.Catalogue.SetDynacl | ermrest/model/misc.py:866-887 | Sets a binding if the client owns the resource; the cache agrees with the new policy |
| AclModel.Catalogue.DeleteDynacl | ermrest/model/misc.py:889-902 | Removes a binding if the client owns the resource; the cache agrees with the new policy |
| AclModel.Catalogue.ReplaceDynacls | ermrest/model/misc.py:843-864 | Replaces the bindings if the client owns the resource; the cache agrees with the new policy |
| Spans.OverlapsExactly | ermrest/url/ast/history.py:488-491 | The range operator `&&` holds exactly between ranges that share an instant |
| Spans.EnclosesExactly | ermrest/url/ast/history.py:382-386 | The range operator `@>` holds exactly when every instant of one range is in the other |
| History.RemainingOutside | ermrest/url/ast/history.py:487-515 | Clamping the overlapping versions of the subject leaves every snapshot outside the amended period as it was |
| History.RemainingInside | ermrest/url/ast/history.py:487-515 | Rows of other subjects are not touched, and no old version of the subject is left in force inside the period |
| History.RemainingDisjoint | ermrest/url/ast/history.py:487-515 | If no RID was in force twice at once, none is after the split |
| History.RemainingNormal | ermrest/url/ast/history.py:487-515 | Clamping leaves no version with an empty period |
| History.ConfigRelation.Construct | ermrest/url/ast/history.py:516-531 | One version per entry of the content map, numbered by the sequence, which together give the period exactly the mapped settings |
| History.ConfigRelation.AmendConfig | ermrest/url/ast/history.py:470-551 | For from <= until: at each instant inside, the settings of the subject are exactly the content map; at each instant outside every snapshot is unchanged; other subjects are untouched; each RID stays in force at most once; a reversed range fails and changes nothing |
| History.ConfigRelation.AmendAcl | ermrest/url/ast/history.py:554-580 | Succeeds exactly for supported names with lists or nulls as content, and then the period has exactly the listed ACLs |
| Redaction.Unpacked | ermrest/url/ast/history.py:340-359 | A column is unpacked exactly if its only name is a system column; mixed names are an error |
| Redaction.FilterExactly | ermrest/url/ast/history.py:361-380 | The compiled filter matches exactly the versions selected by the column of the argument: by RID, by author or by start time for these system columns, and by the JSON field for any other |
| Redaction.OutsideUnchanged | ermrest/url/ast/history.py:361-393 | Redaction changes no snapshot outside its range |
| Redaction.SnapshotsKept | ermrest/url/ast/history.py:382-386 | Every snapshot, inside the range too, keeps its rows and all columns but the target, which only turns null |
| Redaction.ExposedExactly | ermrest/url/ast/history.py:380-386 | A matched row still shows the value inside the range if and only if its version straddles an end of the range |
| Redaction.StraddlingValueStays | ermrest/url/ast/history.py:380-386 | A version from 0 to 5 keeps its value when the period from 3 to 9 is redacted, and still shows it at 4 |
| Redaction.DataRelation.Delete | ermrest/url/ast/history.py:438-465 | Fails without effect exactly for a missing bound, a reversed range, an unknown or system target, a bad filter or one of another table, a table without a history relation, or a clash of amendments; otherwise each version that the filter selects and the range encloses has the target nulled where present, every other version is as it was, and snapshots outside are unchanged |
| Truncation.SortAffected | ermrest/url/ast/history.py:192-211 | The cursor loop sorts affected tables into user tables and system tables |
| Truncation.AffectedExactly | ermrest/url/ast/history.py:192-211 | The affected tables are exactly those with a version that shares an instant with a version of their schema and has one before the bound: tables of the schema `_ermrest` by their names, all others by RID |
| Truncation.VisibleAfterExactly | ermrest/url/ast/history.py:213-224 | With AND binding tighter than OR, the visibility query finds a table if and only if that table reaches the bound or any table at all is open-ended |
| Truncation.GoneTableVisible | ermrest/url/ast/history.py:213-224 | A record of two tables in which one that ended before the bound counts as visible, though it is known at no time from the bound on |
| Truncation.EndedExactly | ermrest/url/ast/history.py:235-240 | The condition of pruning holds exactly for versions whose every instant lies before the bound |
| Truncation.PrunedKeeps | ermrest/url/ast/history.py:235-240 | Pruning keeps every snapshot from the bound on and nothing that ended by it |
| Truncation.CatalogHistory.Delete | ermrest/url/ast/history.py:180-314 | Fails without effect exactly for a lower bound, a missing upper bound, no history or a clash; otherwise the two loops prune, drop and re-stamp exactly the affected tables |
| Truncation.FutureKept | ermrest/url/ast/history.py:180-314 | Truncation changes no snapshot at or after its bound of any relation it keeps, and keeps the relation, entities and modification times of every table still known then |
| Truncation.PastForgotten | ermrest/url/ast/history.py:231-282 | Of an affected table no version and no entity that ended by the bound is left, and of a purged one nothing at all |
| Truncation.KnownPastForgotten | ermrest/url/ast/history.py:192-282 | ... in particular of every user table known before the bound |
| Truncation.KnownSystemForgotten | ermrest/url/ast/history.py:192-314 | ... and of every system table known before it whose name is the only one it had |
| Truncation.GoneTableKept | ermrest/url/ast/history.py:213-282 | ... and so truncation keeps its history relation |
| Upsert.KeyMatchMeaning | ermrest/ermpath/resource.py:621-632 | The compiled match condition is True exactly for rows that agree on every metakey column, NULL counting as a value only in nullable columns |
| Upsert.ProbeExactly | ermrest/ermpath/resource.py:772-785 | The LEFT JOIN probe finds exactly the unmatched rows that carry some key information |
| Upsert.ProbeDecides | ermrest/ermpath/resource.py:760-789 | For identified rows the probe is True exactly when an unmatched row exists, and when it is False the PUT inserts nothing |
| Upsert.AcceptedExactly | ermrest/ermpath/resource.py:660-688 | Input analysis accepts, up to 32 metakey columns, exactly the input in which equal metakeys have a NULL in them, and beyond 32 exactly the input in which no two rows agree on the first 32 columns |
| Upsert.AcceptsDistinctExactly | ermrest/ermpath/resource.py:660-688 | All input with distinct metakeys is accepted if and only if there are at most 32 metakey columns |
| Upsert.WideKeyRefusesDistinct | ermrest/ermpath/resource.py:660-688 | One key over 33 columns is such a table: distinct rows are refused |
| Upsert.MatchIsUnique | ermrest/ermpath/resource.py:621-632 | An identified input row matches at most one stored row |
| Upsert.AdmitMeaning | ermrest/ermpath/resource.py:1028-1041 | ON CONFLICT DO NOTHING keeps the stored rows, adds rows in input order, leaves out only rows that conflict with one that is there, and keeps keys unique |
| Upsert.ExactlyOneFate | ermrest/ermpath/resource.py:1074-1077 | A matched input row is not inserted, and one that is neither matched nor inserted shares a unique key but not the metakey with a stored row |
| Upsert.UpdatedExactly | ermrest/ermpath/resource.py:999-1025 | A matched input row is applied in place to the one stored row it matches |
| Upsert.OthersUnchanged | ermrest/ermpath/resource.py:999-1077 | Stored rows that no input row matches are unchanged, the rows added are the inserted input rows in order, and keys stay unique |
| Upsert.SecondPutChangesNothing | ermrest/ermpath/resource.py:1203-1330 | The same PUT again, at any time and by any client, inserts nothing and changes no client-managed column, when every unique key has the RID or includes a client-managed key |
| Upsert.UnmanagedKeyInserts | ermrest/ermpath/resource.py:1261-1330 | For any table with a client-managed key and a key that neither has the RID nor includes a client-managed key, there is a row that one PUT skips and its repetition by another client inserts |
| Upsert.IdempotentExactly | ermrest/ermpath/resource.py:1203-1330 | So on a table with a client-managed key and no row constraint beyond NOT NULL, repeating a PUT never changes a client-managed column if and only if every unique key has the RID or includes a client-managed key |
| Upsert.SystemKeyNotIdempotent | ermrest/ermpath/resource.py:1261-1330 | A table with a unique key on a column and the creating client is one on which repetition can insert |
| Upsert.Table.PerformUpdate | ermrest/ermpath/resource.py:999-1025 | Each stored row takes the non-key columns of an input row that matches it, or stays |
| Upsert.Table.PerformInsert | ermrest/ermpath/resource.py:1028-1041 | The loop over input rows leaves the table that ON CONFLICT DO NOTHING leaves |
| Upsert.Table.Put | ermrest/ermpath/resource.py:1203-1330 | Each refusal happens exactly in its case and leaves the rows as they were. Never forbidden with both rights; with the right to update alone, exactly if some row that carries key information matches no stored row; nothing identified is inserted without the right to insert. An integrity error only where some update or row to insert breaks a key or a row constraint, and for distinct metakeys exactly then. Otherwise the result is a run of update and insert |
| Upsert.KeylessRowInserted | ermrest/ermpath/resource.py:760-789 | With the right to update alone, a row without key information passes for matched and is inserted |
| Upsert.UpdatedValues | ermrest/ermpath/resource.py:999-1025 | A matched stored row gets the values of the input in the columns outside all keys, the time and the client of the change, and keeps its key columns, RID, RCT and RCB |
| Upsert.InsertedValues | ermrest/ermpath/resource.py:1028-1041 | An inserted row has the values of the input, the next RID of the sequence, and the time and the client both as created and as changed |
| Pools.StepReferences | ermrest/sanepg2.py:105-144 | Every atomic step keeps the registry and the threads referring to existing pairs of created pools |
| Pools.StepKeepsTrack | ermrest/sanepg2.py:105-144 | After every step of any thread, a created pool is registered, held by a thread still due to check it, or closed |
| Pools.RunSafe | ermrest/sanepg2.py:96-144 | ... hence after every interleaving of any number of threads |
| Pools.QuiescentNoLeak | ermrest/sanepg2.py:96-144 | When no thread is under way, every created pool is registered or closed |
| Pools.EndangersExactly | ermrest/sanepg2.py:105-144 | After a step from a state of such a run the threads can go on, without popping anything more, to a registered pool that is closed if and only if the step popped a pool that another thread put back and had yet to check |
| Pools.RegisteredStaysOpen | ermrest/sanepg2.py:105-144 | Over whole runs: at every instant registered pools are open and stay so without a further pop, if and only if no thread ever pops a pool that another thread put back and has yet to check |
| Pools.RegisteredPoolCanBeClosed | ermrest/sanepg2.py:105-144 | An interleaving of two threads after which a closed pool is registered: that registered pools are open is not an invariant |
| Identifiers.TruncatedSize | ermrest/model/misc.py:79-86 | Truncation leaves the text alone or cuts it to the length with two dots; from ten bytes on it always fits, since two characters take at most eight |
| Identifiers.TruncatedAbbreviates | ermrest/model/misc.py:96-111 | Truncating a piece again abbreviates the same component |
| Identifiers.TruncatedExactly | ermrest/model/misc.py:79-86 | The result is the first cut, from one character or the excess on up to all but two, that takes no more bytes than asked, dots included, or the whole text if none does |
| Identifiers.CharBytesExactly | ermrest/model/misc.py:79-86 | Sizes are those of the UTF-8 encoding |
| Identifiers.SpaceCharacters | ermrest/model/misc.py:84-84 | The characters stripped off the end of a cut text |
| Identifiers.Truncate | ermrest/model/misc.py:79-86 | The loop makes the smallest cut of its range that fits, or none if none does |
| Identifiers.SortParts | ermrest/model/misc.py:96-99 | Each round visits all parts, longest first and later ones first among equals |
| Identifiers.Round | ermrest/model/misc.py:96-111 | A round keeps every piece an abbreviation of its component, and a name it returns is under the limit |
| Identifiers.MakeId | ermrest/model/misc.py:54-120 | For every list of components the name takes at most 63 bytes of UTF-8; it is the naive name if that fits, and otherwise one of three shapes, with the digest last |
| Identifiers.LastDitch | ermrest/model/misc.py:119-120 | The last-ditch branch always fits |
| Identifiers.ShortenedEndsWithDigest | ermrest/model/misc.py:93-120 | A shortened name ends in the digest of the naive one |
| Identifiers.MakeConstraintName | ermrest/model/misc.py:122-144 | A returned name is unused and fits; while the unhashed names fit, the first unused one is found within one probe more than there are names in use |
| Utf8.DecodeEncoded | ermrest/url/lex.py:120-124 | Decoding takes one encoded character off the front, for every character and rest |
| Utf8.FirstIsEncoded | ermrest/url/lex.py:120-124 | Decoding accepts nothing but encodings: no stray or missing byte, no longer form, no surrogate |
| UrlLexer.SpellingReads | ermrest/url/lex.py:113-138 | Any spelling of any text, characters raw or percent-encoded in any mixture and either case of hexadecimal digits, lexes into string parts that concatenate to exactly the text, for every keyword table |
| UrlLexer.StringOfSpelling | ermrest/url/parse.py:851-869 | The string of the grammar for a spelling of non-empty text is the text, so two spellings denote the same string exactly when they spell the same text |
| UrlLexer.KeywordExactly | ermrest/url/lex.py:140-147 | A whole word lexes as one token with its own text as value, and as a keyword exactly if it spells, in whichever case, one of the table |
| UrlLexer.RawCharacters | ermrest/url/lex.py:113-147 | The characters of words and numbers are the unreserved ones of RFC 3986 and the asterisk |
| UrlLexer.HexCharacters | ermrest/url/lex.py:113-124 | The sixteen digits of percent-encoding, in either case, and their values |
| UrlLexer.StringOfExactly | ermrest/url/parse.py:851-869 | A stretch of URL is a string of the grammar exactly if it is not empty, lexes, and has no punctuation in it |
| UrlLexer.PlusNeverLexes | ermrest/url/lex.py:47-57 | Text with a raw plus sign is always a lexical error, so the grammar rule that reads it as a space never applies |
| UrlLexer.Lexer.Next | ermrest/url/lex.py:113-138 | Advances past the longest token of the first matching rule, with decoded value and keyword type, or fails |
| UrlLexer.Lexer.Tokens | ermrest/url/lex.py:113-145 | The lexer loop yields the tokens of the whole input, or the first error |
| UrlLexer.ReduceString | ermrest/url/parse.py:863-869 | Reducing string parts from left to right concatenates them; anything else is not a string |

## Left out

- Paging.WalkComplete: an unchanged result with a unique sort key is assumed; pages over a table edited in between are not modelled.
- Identifiers.MakeConstraintName: has a bound on the number of probes, which the source's loop does not; once names need a digest, nothing says the loop ends.
- Upsert.SecondPutChangesNothing: assumes distinct metakeys and a value for every column of some client-managed key in each row; input analysis alone does not ensure that.
- UrlLexer.Lexer.Next: as for SpellingReads, on bytes that are not UTF-8.
- UrlLexer.Lexer.Tokens: as for SpellingReads, on bytes that are not UTF-8.
- UrlLexer.SpellingReads: percent-encoded bytes that are not UTF-8 end in an error here, where the source decodes them with replacement characters.
- History.ConfigRelation.AmendAcl: as for AmendConfig; the resource type and the ACL names it supports are given by the caller.
- History.ConfigRelation.AmendConfig: the adjustment of live tuples before the amendment is not modelled, since its effect is that of database triggers; versions built later by live inserts may reuse a number that an amendment drew as a RID.
- Redaction.DataRelation.Delete: the lookup of the latest amendment and of names and tables of columns is a parameter.
- Truncation.CatalogHistory.Delete: the right to truncate and the lookup of the latest amendment are not modelled.
- EntityResults.CompiledEntityQueryExact: is for a usable key that is not masked; what a request returns with any other key is ResultCompleteExactly.
- EntityResults.EntityQueryExact: joins are inner ones; history-mode queries, whose rows are taken as given, are not modelled.
- Paths.EntityPath.AddFilter: the right to enumerate and to select the named column, names of three parts, the text search column `*` and array columns are not modelled.
- Paths.EntityPath.AddLink: link resolution by endpoint names and default links is not modelled; the call receives the reference and the select right on the linked table.
- Projections.CompileProjection: the document is a value of a fixed shape; the validation of its JSON is not modelled.
- DynAcl.GetDynaclClauses: the text search column `*`, array columns, quantified value lists and the special equality of RID columns are not modelled.
- Upsert.IdempotentExactly: `Def.check` of any row is true; with further row constraints the converse would depend on them.
- Upsert.MkCols: takes all columns of the table, where the source takes those that the client may enumerate.
- Upsert.Table.Put: dynamic rights, RID leases, foreign keys and the returned representation are not modelled; row constraints are one predicate per table.
- Pools.RunSafe: a `pool()` constructor that fails and reclamation by the garbage collector are not modelled.
- AclModel.Catalogue.SetDynacl: the validation of a binding document and its storage are not modelled.
- AclModel.Catalogue.SetAcls: the SQL that stores an edit and the validation of document shapes are not modelled.
- Attribute, attribute-group and aggregate paths, and updates through them.
- `_enforce_input_exists`, whose test does not detect unmatched rows; insert and update requests.
- DDL, indexes, comments, annotations, introspection and type handling: long but shallow.
- Loading of CSV and JSON input and serialisation of output.
- The rest of the URL grammar and the LALR parser itself.
- Request routing, ETag headers, catalog creation, registry, messaging and logging.
