# Generic query engine, product repository and audit stamping

This project models the core of a small ASP.NET Core product catalogue and proves properties of that model.

- **The query engine.** `QueryableExtension` turns a dictionary of `key → value` filters into LINQ predicates over nested property paths. It also builds a free-text search over a list of target properties (or two properties concatenated), sorts by a property path, and cuts a page window.
- **The repository.** `EntityRepository` runs those operations over the soft-delete-filtered `Products` table. It also creates, updates and soft-deletes rows.
- **The entity.** `Product` guards its own construction and update.
- **Audit stamping.** `AuditTimeInterceptor` stamps `CreatedAt` and `UpdatedAt` on save.
- **The HTTP layer.** `HttpRequestExtensions` turns a request's query string into the filter dictionary.

The engine is modelled twice:

- **On values** (`QuerySpec`): a predicate is a datatype `Pred` over terms, and an `IQueryable` is a sequence of records. A record is a `Value`: a map from property names to values. `Eval` says whether a predicate holds of a record.
- **As the source's loops** (`QueryableExtension`): each method is proved equal to its specification function.

The lemmas in `QueryLemmas` state what each filter value means, record by record. For example, a text filter is a case-insensitive substring match, and a `,` list is membership in the converted tokens. The lemmas also show that a key through a collection is an `Any`, and that a `;` value is a date range. Product-specific consequences are in `Products`, `Paging` and `Repository`.

Where the code and its documentation disagree, the model follows the code:

- `Update` marks the entity modified when `hasTracking` is **true**.
- `"!"` on a non-nullable value type builds no predicate, because `Expression.NotEqual` with a null constant throws for such a type.
- `Delete(id)` soft-deletes every visible row, because its bulk update has no `Where`.

C# exceptions are `Fallible.Throws`, and a caught exception reads as "no predicate". The code's 32-bit `int` arithmetic wraps explicitly (`Paging.Wrap32`).

## Model

| member | source | states |
|---|---|---|
| Wrappers.SomesAreValues | Infrastructure.Abstractions/Extensions/QueryableExtension.cs:177-179 | the values kept by `.Where(d => d.HasValue)` are exactly the `Some` entries |
| Wrappers.SomesSnoc | Infrastructure.Abstractions/Extensions/QueryableExtension.cs:177-179 | one more entry adds its value at the end exactly when it is present |
| Text.TrimStart | Infrastructure.Abstractions/Extensions/QueryableExtension.cs:176 | the result is a suffix whose first character is not white space, and everything dropped is white space |
| Text.TrimEnd | Infrastructure.Abstractions/Extensions/QueryableExtension.cs:176 | the result is a prefix whose last character is not white space, and everything dropped is white space |
| Text.Trim | Infrastructure.Abstractions/Extensions/QueryableExtension.cs:176 | the result is an infix of the input with only white space before and after it (`TrimmedInfix`), it neither starts nor ends with white space, and it is empty exactly when the input is all white space |
| Text.TrimTwice | Infrastructure.Abstractions/Extensions/QueryableExtension.cs:378 | trimming is idempotent, so `GeneralSearch`'s trimmed term is trimmed again to no effect |
| Text.Lower | Infrastructure.Abstractions/Extensions/QueryableExtension.cs:284-301 | lower-casing keeps the length and maps each character on its own |
| Text.EqualsIgnoringCaseIsLowerEquality | Infrastructure.Abstractions/Extensions/QueryableExtension.cs:128-154 | two names match ignoring case exactly when their lower-case forms are equal |
| Text.EqualsIgnoringCaseReflexive | Infrastructure.Abstractions/Extensions/QueryableExtension.cs:128-154 | every name matches itself ignoring case |
| Text.Split | Infrastructure.Abstractions/Extensions/QueryableExtension.cs:237-252 | there is always at least one part, no part holds the separator, and text without it is one part |
| Text.JoinSplit | WebApi/Extensions/HttpRequestExtensions.cs:5-8 | splitting on a separator and joining on it again gives back the text |
| Text.SplitAfterFirst | Infrastructure.Abstractions/Extensions/QueryableExtension.cs:400-406 | text whose first separator follows `a` splits into `a` followed by the parts of the rest |
| Dates.DatePart | Infrastructure.Abstractions/Extensions/QueryableExtension.cs:208-213 | `d.Date` is the midnight starting `d`'s day, at most `d` and less than a day before it |
| Dates.AddTicks | Infrastructure.Abstractions/Extensions/QueryableExtension.cs:187-188 | adding ticks succeeds exactly within `DateTime`'s range and gives the sum |
| Dates.DayLaterLessOneTick | Infrastructure.Abstractions/Extensions/QueryableExtension.cs:313-324 | `AddDays(1).AddTicks(-1)` throws past the maximum date, and otherwise is one day later less a tick |
| Dates.Add59Seconds | Infrastructure.Abstractions/Extensions/QueryableExtension.cs:313-324 | `AddSeconds(59)` throws past the maximum date, and otherwise is 59 seconds later |
| Dates.MidnightExtendsToEndOfDay | Infrastructure.Abstractions/Extensions/QueryableExtension.cs:313-324 | for a midnight, one day later less a tick is the last tick of the same day |
| Dates.SameDay | Infrastructure.Abstractions/Extensions/QueryableExtension.cs:208-213 | an instant is on the day starting at a midnight exactly when it lies in that day's ticks |
| Schema.Underlying | Infrastructure.Abstractions/Extensions/QueryableExtension.cs:197 | `Nullable.GetUnderlyingType(t) ?? t` gives `T` for `Nullable<T>` and leaves a non-nullable type as it is |
| Schema.MatchingPropertiesAreMatches | Infrastructure.Abstractions/Extensions/QueryableExtension.cs:128-154 | the candidates for a member name are exactly the type's properties whose names match it ignoring case |
| Schema.Member | Infrastructure.Abstractions/Extensions/QueryableExtension.cs:128-154 | a member found belongs to a record type of the catalogue and matches the name ignoring case, and conversely (`MemberFindsOnlyMatch`) the only matching property is found; members of built-in types do not resolve (see Left out) |
| Schema.MemberFindsOnlyMatch | Infrastructure.Abstractions/Extensions/QueryableExtension.cs:128-154 | a property of a catalogue record type that is the only one matching the name ignoring case is the member found |
| Schema.MemberMissingWithoutMatch | Infrastructure.Abstractions/Extensions/QueryableExtension.cs:128-154 | when no property matches the name, no member is found |
| Schema.MemberIsUnique | Infrastructure.Abstractions/Extensions/QueryableExtension.cs:128-154 | a member found is the only property of its type matching the name, since an ambiguous name throws |
| Schema.ChangeType | Infrastructure.Abstractions/Extensions/QueryableExtension.cs:237-252 | conversion to `string` is the identity; conversion to `Nullable<T>`, `Guid`, `TimeSpan`, classes and collections throws; any other result is a non-null non-text value |
| Predicates.Where | Infrastructure.Abstractions/Extensions/QueryableExtension.cs:18-42 | `Where` keeps exactly the records satisfying the predicate, each with its multiplicity |
| Predicates.Conj | Infrastructure.Abstractions/Extensions/QueryableExtension.cs:18-42 | the conjunction holds exactly when every predicate holds |
| Predicates.Disj | Infrastructure.Abstractions/Extensions/QueryableExtension.cs:387-419 | the disjunction holds exactly when some predicate holds |
| Predicates.WhereAllIsConjunction | Infrastructure.Abstractions/Extensions/QueryableExtension.cs:18-42 | a chain of `Where` calls equals one `Where` on the AND of the predicates |
| Predicates.WhereOfTrue | Infrastructure.Abstractions/Extensions/QueryableExtension.cs:18-42 | `Where` with a predicate that always holds keeps the query |
| Predicates.WhereOfWhere | Infrastructure.Abstractions/Extensions/QueryableExtension.cs:18-42 | two `Where` calls equal one on the conjunction |
| Predicates.WhereAllOfSomes | Infrastructure.Abstractions/Extensions/QueryableExtension.cs:18-42 | chaining `Where` over the present predicates keeps exactly the records satisfying each one, and absent ones change nothing |
| Predicates.WhereAllStep | Infrastructure.Abstractions/Extensions/QueryableExtension.cs:25-39 | one more entry adds one more `Where` when it yields a predicate, and nothing otherwise |
| QuerySpec.Lift | Infrastructure.Abstractions/Extensions/QueryableExtension.cs:156-225 | a built predicate succeeds exactly when its builder does, carrying the same predicate |
| QuerySpec.Caught | Infrastructure.Abstractions/Extensions/QueryableExtension.cs:57-80 | after catching, there is a predicate exactly when the builder neither threw nor returned null |
| QuerySpec.LoweredArray | Infrastructure.Abstractions/Extensions/QueryableExtension.cs:284-301 | `ConvertToArray` keeps length and position, lower-casing exactly the strings |
| QuerySpec.ConvertTokens | Infrastructure.Abstractions/Extensions/QueryableExtension.cs:237-252 | a successful conversion has one value per token, each the trimmed token converted to the property type |
| QuerySpec.ConvertTokensSucceeds | Infrastructure.Abstractions/Extensions/QueryableExtension.cs:237-252 | the conversion succeeds exactly when every trimmed token converts |
| QuerySpec.EveryTokenConvertsSplit | Infrastructure.Abstractions/Extensions/QueryableExtension.cs:237-252 | every token converts exactly when the first does and every later one does |
| QuerySpec.ContainsForLists | Infrastructure.Abstractions/Extensions/QueryableExtension.cs:254-268 | a text property is lower-cased before the membership test; other types are tested as they are |
| QuerySpec.AdjustedDate | Infrastructure.Abstractions/Extensions/QueryableExtension.cs:313-324 | a date at any position but 1, or a date that did not parse, comes through unchanged; a midnight at position 1 becomes one day later less a tick, and any other instant there 59 seconds later, each throwing exactly when it would pass `DateTime.MaxValue` |
| QuerySpec.AdjustedDates | Infrastructure.Abstractions/Extensions/QueryableExtension.cs:175-179 | a successful adjustment keeps one entry per token |
| QuerySpec.ParsedDates | Infrastructure.Abstractions/Extensions/QueryableExtension.cs:175-177 | there is one parse result per `;`-separated token |
| QuerySpec.ParsedDatesParseEachToken | Infrastructure.Abstractions/Extensions/QueryableExtension.cs:175-177 | entry `i` is the exact-format parse of the trimmed `i`-th `;`-separated token |
| QuerySpec.OrElse | Infrastructure.Abstractions/Extensions/QueryableExtension.cs:414-416 | the running OR is absent exactly when both sides are absent |
| QuerySpec.OrAll | Infrastructure.Abstractions/Extensions/QueryableExtension.cs:387-419 | the search predicate is absent exactly when no target contributes, and otherwise holds exactly when some contribution holds |
| QuerySpec.TargetContributions | Infrastructure.Abstractions/Extensions/QueryableExtension.cs:393-412 | one contribution per target, each the target's own predicate |
| QuerySpec.EffectiveTargets | Infrastructure.Abstractions/Extensions/QueryableExtension.cs:366-374 | the request's targets whenever they are given (an empty list disables the search), else the type's `SearchByProperties` |
| QuerySpec.FilterContributions | Infrastructure.Abstractions/Extensions/QueryableExtension.cs:25-39 | one contribution per filter entry, each the entry's own predicate |
| QueryableExtension.GeneralSearchOptions.constructor | Infrastructure.Abstractions/Extensions/QueryableExtension.cs:362-385 | the options hold the given term and targets |
| QueryableExtension.ConvertToArray | Infrastructure.Abstractions/Extensions/QueryableExtension.cs:284-301 | fills a fresh array with the list, lower-casing the strings |
| QueryableExtension.ArrayExpression | Infrastructure.Abstractions/Extensions/QueryableExtension.cs:237-252 | equals `QuerySpec.ArrayPredicate`, whose meaning is `QueryLemmas.ValueFilterMatchesAnyToken` and `QueryLemmas.TextFilterMatchesAnyToken` |
| QueryableExtension.ContainsOrEqualForStrings | Infrastructure.Abstractions/Extensions/QueryableExtension.cs:270-282 | equals `QuerySpec.StringPredicate`: a comma list or a lower-cased substring test |
| QueryableExtension.AdjustDate | Infrastructure.Abstractions/Extensions/QueryableExtension.cs:313-324 | equals `QuerySpec.AdjustedDate`, and the counter goes up by one unless it throws |
| QueryableExtension.ParseDateRange | Infrastructure.Abstractions/Extensions/QueryableExtension.cs:175-179 | the parse-adjust-filter pipeline throws when an adjustment throws, and otherwise returns the adjusted dates that parsed, in order |
| QueryableExtension.AdjustedDatesThrowsOn | Infrastructure.Abstractions/Extensions/QueryableExtension.cs:175-179 | once a prefix of the dates makes `AdjustDate` throw, the whole list throws |
| QueryableExtension.BuildBodyExpression | Infrastructure.Abstractions/Extensions/QueryableExtension.cs:156-225 | equals `QuerySpec.BodyPredicate`, case by case on the value and the property type |
| QueryableExtension.BuildPropertyExpression | Infrastructure.Abstractions/Extensions/QueryableExtension.cs:128-154 | equals `QuerySpec.PropertyChain`: the null-guarded access chain for the path, or none when a member is missing |
| QueryableExtension.BuildNestedPropertyExpression | Infrastructure.Abstractions/Extensions/QueryableExtension.cs:44-99 | the segment loop equals `QuerySpec.NestedPredicate`, including the `continue` after a collection hop |
| QueryableExtension.CollectionHop | Infrastructure.Abstractions/Extensions/QueryableExtension.cs:57-80 | a collection hop equals `QuerySpec.CollectionHop`: an `Any` over the remaining path, a continue, or an end with null |
| QueryableExtension.BuildConcatenatedPropertyExpression | Infrastructure.Abstractions/Extensions/QueryableExtension.cs:101-126 | equals `QuerySpec.ConcatenatedPredicate`, whose meaning is `QueryLemmas.ConcatenationMatchesJoinedText` |
| QueryableExtension.Search | Infrastructure.Abstractions/Extensions/QueryableExtension.cs:387-419 | the target loop equals `QuerySpec.SearchPredicate`, the left-nested OR of the contributions |
| QueryableExtension.OrAllStep | Infrastructure.Abstractions/Extensions/QueryableExtension.cs:414-416 | each target extends the running OR by its contribution |
| QueryableExtension.GeneralSearch | Infrastructure.Abstractions/Extensions/QueryableExtension.cs:362-385 | returns `QuerySpec.SearchedQuery`; a blank term leaves the options alone, and otherwise the default targets are written back into them |
| QueryableExtension.ApplyGenericFilter | Infrastructure.Abstractions/Extensions/QueryableExtension.cs:18-42 | the entry loop equals `QuerySpec.FilteredQuery` |
| QueryLemmas.FilteredQueryIsConjunction | Infrastructure.Abstractions/Extensions/QueryableExtension.cs:18-42 | a record is kept exactly when it satisfies the predicate of every entry that yields one |
| QueryLemmas.WalkWithEmptyValue | Infrastructure.Abstractions/Extensions/QueryableExtension.cs:44-99 | an empty value never yields a predicate, whatever the path |
| QueryLemmas.InertFiltersLeaveQuery | Infrastructure.Abstractions/Extensions/QueryableExtension.cs:25-39 | entries with reserved keys or empty values leave the query as it was |
| QueryLemmas.SingleSegmentKey | Infrastructure.Abstractions/Extensions/QueryableExtension.cs:44-99 | a one-segment key on a non-collection property filters on that property's own body predicate |
| QueryLemmas.AccessReadsField | Infrastructure.Abstractions/Extensions/QueryableExtension.cs:128-154 | the access built for a property reads the record's field of that name |
| QueryLemmas.TextFilterIsSubstringMatch | Infrastructure.Abstractions/Extensions/QueryableExtension.cs:270-282 | a text filter without `,` keeps exactly the records whose text, lower-cased, contains the lower-cased value |
| QueryLemmas.BangOnTextIsSubstringMatch | Infrastructure.Abstractions/Extensions/QueryableExtension.cs:163-166 | `!` on a text property is a substring search for `!`, because the text test comes first |
| QueryLemmas.LowerKeepsCommas | Infrastructure.Abstractions/Extensions/QueryableExtension.cs:270-282 | lower-casing neither creates nor removes a comma |
| QueryLemmas.TextFilterIgnoresCase | Infrastructure.Abstractions/Extensions/QueryableExtension.cs:270-282 | two values equal ignoring case give the same text filter |
| QueryLemmas.TextTokens | Infrastructure.Abstractions/Extensions/QueryableExtension.cs:237-252 | a text comma list always converts, each token trimmed and lower-cased |
| QueryLemmas.TextFilterMatchesAnyToken | Infrastructure.Abstractions/Extensions/QueryableExtension.cs:237-268 | a text property matches a comma list exactly when its lower-cased text equals some trimmed, lower-cased token |
| QueryLemmas.InLoweredTokens | Infrastructure.Abstractions/Extensions/QueryableExtension.cs:254-268 | lower-cased membership in the lowered tokens, record by record |
| QueryLemmas.NonTextTokens | Infrastructure.Abstractions/Extensions/QueryableExtension.cs:284-301 | converted non-text values pass through `ConvertToArray` unchanged |
| QueryLemmas.InConvertedTokens | Infrastructure.Abstractions/Extensions/QueryableExtension.cs:254-268 | membership in the converted tokens holds exactly for a non-null field equal to one of them |
| QueryLemmas.ValueListReachesArray | Infrastructure.Abstractions/Extensions/QueryableExtension.cs:168-169 | a comma value on a non-text scalar reaches `ArrayExpression` |
| QueryLemmas.ValueArrayConverts | Infrastructure.Abstractions/Extensions/QueryableExtension.cs:237-252 | on a non-text property the array predicate is built exactly when every token converts, and never on a `Nullable<T>` |
| QueryLemmas.NullableTokensFail | Infrastructure.Abstractions/Extensions/QueryableExtension.cs:237-252 | no token converts to a `Nullable<T>`, so the list conversion fails |
| QueryLemmas.ValueArrayMembership | Infrastructure.Abstractions/Extensions/QueryableExtension.cs:237-268 | the built array predicate holds exactly for a non-null field equal to some converted token |
| QueryLemmas.ArrayPredicateCases | Infrastructure.Abstractions/Extensions/QueryableExtension.cs:237-252 | `ArrayExpression` throws exactly when a token fails to convert, and otherwise tests membership in the lowered array |
| QueryLemmas.ValueFilterMatchesAnyToken | Infrastructure.Abstractions/Extensions/QueryableExtension.cs:168-169 | a comma filter on a non-text scalar contributes exactly when every token converts (never for `Nullable<T>`), and then matches a field equal to a token |
| QueryLemmas.NotNullFilter | Infrastructure.Abstractions/Extensions/QueryableExtension.cs:166 | `!` is IS NOT NULL on a type admitting null, and no predicate on a non-nullable value type |
| QueryLemmas.ScalarEqualityNeverContributes | Infrastructure.Abstractions/Extensions/QueryableExtension.cs:193-224 | a plain value on a non-text, non-date scalar reaches the constant of a string as that type, which throws, so it contributes nothing |
| QueryLemmas.CollectionFilterIsExists | Infrastructure.Abstractions/Extensions/QueryableExtension.cs:57-80 | a key `c.f` through a collection keeps a record exactly when some element's text `f` contains the value, ignoring case |
| QueryLemmas.AnyElementContains | Infrastructure.Abstractions/Extensions/QueryableExtension.cs:57-80 | `Any` over a collection holds exactly when some element satisfies the inner test |
| QueryLemmas.NestedRecordFilterIsNullGuarded | Infrastructure.Abstractions/Extensions/QueryableExtension.cs:82-92 | a key `a.f` through a record null-guards `a`: a null `a` never matches, and otherwise `a.f` is tested |
| QueryLemmas.GuardedFieldContains | Infrastructure.Abstractions/Extensions/QueryableExtension.cs:82-87 | a substring test through a null-guarded record reads `a.f`, and is false when `a` is null |
| QueryLemmas.AdjustedDatesMoveOnlySecond | Infrastructure.Abstractions/Extensions/QueryableExtension.cs:313-324 | only the token at position 1 moves (to the end of its day, or by 59 s), and the adjustment throws exactly when that move does |
| QueryLemmas.AdjustedDatesAreMoved | Infrastructure.Abstractions/Extensions/QueryableExtension.cs:175-179 | adjusting and then dropping the unparsable tokens gives `MovedDates`: the token at position 1 moved, the others as parsed, the absent ones dropped; it throws exactly when that move does |
| QueryLemmas.DateRangeIsFirstToLast | Infrastructure.Abstractions/Extensions/QueryableExtension.cs:171-190 | for any `;` value: two or more dates give the range from the first to the last (after the position-1 move); one date gives that instant to one day later less a tick, or throws past `DateTime.MaxValue`; no date, or a throwing move, throws |
| QueryLemmas.DateRangeOfTwoDates | Infrastructure.Abstractions/Extensions/QueryableExtension.cs:171-184 | the special case of exactly two parsed tokens: the range runs from the first to the second, moved to the end of its day or by 59 seconds |
| QueryLemmas.DateRangeOfOneDate | Infrastructure.Abstractions/Extensions/QueryableExtension.cs:185-189 | the special case of a lone date at position 0 (later tokens unparsable): from it to one day later less a tick |
| QueryLemmas.DateRangeOfLoneSecondDate | Infrastructure.Abstractions/Extensions/QueryableExtension.cs:171-189 | a lone midnight `m` at position 1 is moved before the day is added, so the range is `[m + day - 1 tick, m + 2 days - 2 ticks]` |
| QueryLemmas.DateRangeWithoutDates | Infrastructure.Abstractions/Extensions/QueryableExtension.cs:185-189 | with no date, `First()` throws |
| QueryLemmas.SingleDateFilterCoversRestOfDay | Infrastructure.Abstractions/Extensions/QueryableExtension.cs:206-214 | a single date keeps exactly the records from that instant to the end of its day, and an unparsable one contributes nothing |
| QueryLemmas.CaughtSingleDate | Infrastructure.Abstractions/Extensions/QueryableExtension.cs:206-214 | once its exception is caught, the single-date branch gives nothing for an unparsable date and the rest of the day otherwise |
| QueryLemmas.RestOfDay | Infrastructure.Abstractions/Extensions/QueryableExtension.cs:227-235 | `Between` the instant and its day's last tick holds exactly for dates on that day from the instant on |
| QueryLemmas.DateRangeFilter | Infrastructure.Abstractions/Extensions/QueryableExtension.cs:171-190 | a `;` filter on a `DateTime`/`DateTime?` property keeps exactly the records dated from the first to the last of `RangeDates`, or over one day from a lone date, and contributes nothing when the dates throw |
| QueryLemmas.BetweenIsWithinRange | Infrastructure.Abstractions/Extensions/QueryableExtension.cs:171-190 | a `Between` on a field keeps exactly the records dated within its bounds |
| QueryLemmas.SearchedQueryIsDisjunction | Infrastructure.Abstractions/Extensions/QueryableExtension.cs:362-419 | a blank term keeps the query; otherwise a record is kept exactly when no target contributes or some contributing target matches the trimmed term |
| QueryLemmas.TwoPartTargetIsConcatenation | Infrastructure.Abstractions/Extensions/QueryableExtension.cs:398-404 | a target `a,b` searches the trimmed paths concatenated |
| QueryLemmas.ThreePartTargetContributesNothing | Infrastructure.Abstractions/Extensions/QueryableExtension.cs:398-404 | a target of three or more comma parts contributes nothing |
| QueryLemmas.ConcatenationMatchesJoinedText | Infrastructure.Abstractions/Extensions/QueryableExtension.cs:101-126 | a record matches when `first + " " + second`, with null read as empty, contains the value ignoring case |
| Ordering.TextLeTotal | Infrastructure.Abstractions/Extensions/QueryableExtension.cs:326-350 | the text order relates any two strings |
| Ordering.TextLeTransitive | Infrastructure.Abstractions/Extensions/QueryableExtension.cs:326-350 | the text order is transitive |
| Ordering.PrecedesTotal | Infrastructure.Abstractions/Extensions/QueryableExtension.cs:326-350 | any two records are comparable on the sort key |
| Ordering.PrecedesTransitive | Infrastructure.Abstractions/Extensions/QueryableExtension.cs:326-350 | the sort order is transitive |
| Ordering.Insert | Infrastructure.Abstractions/Extensions/QueryableExtension.cs:343-347 | inserting adds exactly the one record |
| Ordering.SortBy | Infrastructure.Abstractions/Extensions/QueryableExtension.cs:343-347 | `OrderBy` is a permutation of the query |
| Ordering.ConsOrdered | Infrastructure.Abstractions/Extensions/QueryableExtension.cs:343-347 | a record preceding all of an ordered list heads an ordered list |
| Ordering.InsertOrdered | Infrastructure.Abstractions/Extensions/QueryableExtension.cs:343-347 | inserting into an ordered list keeps it ordered |
| Ordering.SortByOrdered | Infrastructure.Abstractions/Extensions/QueryableExtension.cs:343-347 | `OrderBy`/`OrderByDescending` yield an ordered list |
| Ordering.ApplySortOrders | Infrastructure.Abstractions/Extensions/QueryableExtension.cs:326-350 | the sort is a permutation; a blank path means `Id`, an unresolvable path leaves the query, and otherwise the result is ordered (ascending only for exactly `asc`) |
| Paging.Wrap32 | Infrastructure.Abstractions/Extensions/QueryableExtension.cs:352-355 | C#'s unchecked `int` is congruent modulo 2^32 and exact within range |
| Paging.ToPaginated | Infrastructure.Abstractions/Extensions/QueryableExtension.cs:357-360 | the result carries the list, count, flags and page unchanged |
| Paging.SkipIsSuffix | Infrastructure.Abstractions/Extensions/QueryableExtension.cs:352-355 | `Skip(n)` is the suffix from `n` clamped to the length |
| Paging.TakeIsPrefix | Infrastructure.Abstractions/Extensions/QueryableExtension.cs:352-355 | `Take(n)` is the prefix up to `n` clamped to the length |
| Paging.Clamp | Infrastructure.Abstractions/Extensions/QueryableExtension.cs:352-355 | the clamped count lies within the length and is exact inside it |
| Paging.PaginationWindow | Infrastructure.Abstractions/Extensions/QueryableExtension.cs:352-355 | the window is the run starting `PageNumber - PageSize` records in, at most `PageSize` long |
| Paging.EarlyPagesRepeatTheFirst | Infrastructure.Abstractions/Extensions/QueryableExtension.cs:352-355 | every page from 1 up to the page size shows the first page |
| Paging.LaterPagesStartAtDifference | Infrastructure.Abstractions/Extensions/QueryableExtension.cs:352-355 | beyond that, page `n` starts `n - PageSize` records in |
| Paging.HasNextWithoutOverflow | Infrastructure/Repositories/EntityRepository.cs:38 | without overflow, `hasNext` means `(PageNumber + 1) * PageSize < count` |
| Paging.Wrap32Congruent | Infrastructure/Repositories/EntityRepository.cs:38 | values congruent modulo 2^32 wrap to the same `int` |
| Paging.TwentyFiveRecordsPageTwo | Infrastructure/Repositories/EntityRepository.cs:32-39 | over 25 records page 2 of 10 repeats records 1 to 10 and reports no next page |
| Paging.IntendedPageIsNthBlock | Infrastructure.Abstractions/Extensions/QueryableExtension.cs:352-355 | with the intended arithmetic, page `n` holds records `(n-1)*size` to `n*size`, and `hasNext` holds exactly when records remain after it |
| Paging.IntendedTwentyFiveRecordsPageTwo | Infrastructure/Repositories/EntityRepository.cs:32-39 | with the intended arithmetic, page 2 of 10 over 25 records holds records 11 to 20 and reports a next page |
| Paging.WhereNotNull | Infrastructure.Abstractions/Extensions/QueryableExtension.cs:421-424 | the filter applies only when the object is present |
| Products.AcceptsExactly | Domain/Products/Product.cs:54-62 | the guards reject exactly a null or blank name and a negative price or stock |
| Products.Product.Empty | Domain/Products/Product.cs:24 | the private constructor leaves every property at its default |
| Products.Product.Create | Domain/Products/Product.cs:26-39 | `Create` succeeds exactly when the guards pass, giving a fresh product with the given values |
| Products.Product.Update | Domain/Products/Product.cs:41-51 | `Update` succeeds exactly when the guards pass and then sets the four values; a rejected update changes nothing |
| Products.SignatureDistinguishes | Domain/Products/Product.cs:11-20 | names of different length or lower-cased first letter never match ignoring case |
| Products.NoneMatch | Domain/Products/Product.cs:11-20 | no property matches a name that differs from all of them |
| Products.SingleMatch | Domain/Products/Product.cs:11-20 | a name matching exactly one property selects that one |
| Products.Signatures | Domain/Products/Product.cs:11-20 | the lengths and lower-cased first letters of `Product`'s property names |
| Products.ResolvesTo | Domain/Products/Product.cs:11-20 | a name matching only one of `Product`'s properties resolves to it |
| Products.NameResolves | Domain/Products/Product.cs:11 | `Name` resolves to the text property |
| Products.DescriptionResolves | Domain/Products/Product.cs:12 | `Description` resolves to the text property |
| Products.PriceResolves | Domain/Products/Product.cs:13 | `Price` resolves to the decimal property |
| Products.StockResolves | Domain/Products/Product.cs:14 | `Stock` resolves to the int property |
| Products.CreatedAtResolves | Domain/Products/Product.cs:16 | `CreatedAt` resolves to the `DateTime` property |
| Products.IdResolves | Domain/Products/Product.cs:9 | the inherited `Id` resolves to the int property |
| Products.DefaultTargetsOfProduct | Domain/Products/Product.cs:22 | `SearchByProperties` are `Product`'s default targets: five plain paths |
| Products.TextTargetsResolve | Domain/Products/Product.cs:22 | the first two targets resolve to `Name` and `Description` |
| Products.ScalarTargetsResolve | Domain/Products/Product.cs:22 | the last three targets resolve to `Price`, `Stock` and `CreatedAt` |
| Products.ProductCatalogResolves | Domain/Products/Product.cs:22 | `Product`'s catalogue resolves its default targets to its own properties |
| Products.TextTargetContributes | Infrastructure.Abstractions/Extensions/QueryableExtension.cs:405-408 | a text target searches for the term as a substring, ignoring case |
| Products.ScalarTargetContributesNothing | Infrastructure.Abstractions/Extensions/QueryableExtension.cs:405-408 | a decimal, int or date target contributes nothing for a plain term that is not a date |
| Products.TextTargetsContribute | Domain/Products/Product.cs:22 | `Name` and `Description` contribute substring tests |
| Products.ScalarTargetsContributeNothing | Domain/Products/Product.cs:22 | `Price`, `Stock` and `CreatedAt` contribute nothing for such a term |
| Products.OrOfFirstTwo | Infrastructure.Abstractions/Extensions/QueryableExtension.cs:414-416 | two contributions followed by three absent ones give their OR |
| Products.SubstringFilter | Infrastructure.Abstractions/Extensions/QueryableExtension.cs:270-282 | a substring filter holds when the field is text containing the needle |
| Products.DefaultSearchOver | Infrastructure.Abstractions/Extensions/QueryableExtension.cs:362-385 | a default search keeps exactly the records whose `Name` or `Description` contains the trimmed term, ignoring case |
| Products.DefaultSearchIsNameOrDescription | Infrastructure.Abstractions/Extensions/QueryableExtension.cs:362-385 | the default search is one `Where` on `Name` OR `Description` |
| Products.DefaultSearchPredicate | Infrastructure.Abstractions/Extensions/QueryableExtension.cs:362-385 | for a term that is not blank and not a date, the targets' OR is `Name` or `Description` containing the trimmed term |
| Products.NameOrDescription | Domain/Products/Product.cs:22 | that predicate, field by field |
| Products.DefaultProductSearch | Domain/Products/Product.cs:22 | the default product search matches on `Name` or `Description` only |
| AuditTime.Stamp | Infrastructure/Context/Interceptors/AuditTimeInterceptor.cs:23-34 | an added entity gets `CreatedAt`, a modified one `UpdatedAt`, and nothing else changes |
| AuditTime.StampOfUntouched | Infrastructure/Context/Interceptors/AuditTimeInterceptor.cs:23-34 | an entity neither added nor modified keeps every property |
| AuditTime.HasEntryStep | Infrastructure/Context/Interceptors/AuditTimeInterceptor.cs:21-23 | visiting one more entry adds its state |
| AuditTime.StartAudit | Infrastructure/Context/Interceptors/AuditTimeInterceptor.cs:19-35 | every audited entity ends stamped according to the states of its entries |
| AuditTime.SavingChanges | Infrastructure/Context/Interceptors/AuditTimeInterceptor.cs:9-17 | the result is passed on unchanged, and with a context every audited entity is stamped |
| Repository.Visible | Infrastructure/Context/ApplicationDbContext.cs:45-49 | the query filter keeps exactly the rows not soft-deleted, each as often as in the table |
| Repository.VisibleOfConcat | Infrastructure/Context/ApplicationDbContext.cs:45-49 | the filter keeps table order: it distributes over concatenation |
| Repository.Records | Infrastructure/Context/ApplicationDbContext.cs:45-49 | `Set<Product>()` reads each visible row, in table order |
| Repository.GetById | Infrastructure/Repositories/EntityRepository.cs:14-21 | finds a visible row with that id, and none exactly when there is no such row |
| Repository.GetByIdFindsFirst | Infrastructure/Repositories/EntityRepository.cs:14-21 | the row found is the first visible row with that id |
| Repository.AppendedRowIsFound | Infrastructure/Repositories/EntityRepository.cs:44-48 | a row appended under a fresh key is what `GetById` finds for it |
| Repository.IndexOfId | Infrastructure/Repositories/EntityRepository.cs:50-58 | the position of the row with a key, or none when no row has it |
| Repository.GetPaginated | Infrastructure/Repositories/EntityRepository.cs:23-42 | throws exactly when the count exceeds `int`; otherwise the count, page, flags and projected window |
| Repository.DeletedRecordIsNotVisible | Infrastructure/Context/ApplicationDbContext.cs:45-49 | a soft-deleted row is never among the records |
| Repository.QueryableIsVisible | Infrastructure/Repositories/EntityRepository.cs:25-30 | the counted records are visible ones, never soft-deleted |
| Repository.SortedRun | Infrastructure/Repositories/EntityRepository.cs:32-36 | the window is a contiguous run of a reordering of the queryable, at most a page |
| Repository.WindowWithinQueryable | Infrastructure/Repositories/EntityRepository.cs:32-36 | the window holds only queryable records, at most a page of them |
| Repository.RecordIds | Domain/Products/Product.cs:9 | every record has an `int` `Id` |
| Repository.OrderedByIdDescending | Infrastructure.Abstractions/Extensions/QueryableExtension.cs:328-329 | a list ordered descending by `Id` has non-increasing ids |
| Repository.BlankSortIsById | Infrastructure.Abstractions/Extensions/QueryableExtension.cs:328-329 | with no sort path and no direction the query is ordered by `Id`, descending |
| Repository.FirstPageById | Infrastructure.Abstractions/Models/Pagination/PaginatedOptions.cs:6-14 | page 1 of 10 holds up to ten records, highest `Id` first |
| Repository.DefaultListing | Infrastructure.Abstractions/Models/Pagination/PaginatedOptions.cs:6-14 | default options count every visible record and show ten of them, highest `Id` first |
| Repository.SoftDeleted | Infrastructure/Repositories/EntityRepository.cs:60-77 | a selected visible row is marked deleted at `now`; any other row is unchanged |
| Repository.SoftDeleteAll | Infrastructure/Repositories/EntityRepository.cs:60-77 | the bulk update applies that row by row |
| Repository.DeleteHidesEverything | Infrastructure/Repositories/EntityRepository.cs:60-67 | after `Delete` nothing is visible, found or queryable, whatever the id |
| Repository.DeleteRangeHidesExactlyIds | Infrastructure/Repositories/EntityRepository.cs:69-77 | after `DeleteRange` the listed ids are not found and every other lookup is unchanged |
| Repository.UnselectedUnchanged | Infrastructure/Repositories/EntityRepository.cs:69-77 | that, for one id |
| Repository.EntityRepository.constructor | Infrastructure/Repositories/EntityRepository.cs:12 | an empty table with identity starting at 1 |
| Repository.EntityRepository.Create | Infrastructure/Repositories/EntityRepository.cs:44-48 | `CreatedAt` is stamped; an unset key (`Id == 0`) takes the next identity value, drawn even if the save fails, and an explicit key is kept; a key already in the table, soft-deleted rows included, makes the save throw and leaves the table as it was; otherwise the row is appended, one entry is reported and the entity is then found by id unless soft-deleted; keys stay distinct |
| Repository.EntityRepository.Update | Infrastructure/Repositories/EntityRepository.cs:50-58 | with `hasTracking` and an unset key (`Id == 0`) the entity is added as by `Create`: `CreatedAt` stamped, the next identity value drawn, and the row appended under it, or the save throws when a row already has that value; otherwise, unmarked, nothing changes, and marked, `UpdatedAt` is stamped and the row replaced, or the save throws when no row has the key |
| Repository.EntityRepository.Delete | Infrastructure/Repositories/EntityRepository.cs:60-67 | every row becomes soft-deleted, whatever the id |
| Repository.EntityRepository.DeleteRange | Infrastructure/Repositories/EntityRepository.cs:69-77 | exactly the visible rows with listed ids become soft-deleted |
| HttpRequestExtensions.ToPascalCase | WebApi/Extensions/HttpRequestExtensions.cs:10-13 | throws exactly on the empty key; otherwise upper-cases the first character and keeps the rest |
| HttpRequestExtensions.LowerOfUpper | WebApi/Extensions/HttpRequestExtensions.cs:10-13 | upper-casing a character keeps it the same ignoring case |
| HttpRequestExtensions.ToPascalCaseIdempotent | WebApi/Extensions/HttpRequestExtensions.cs:10-13 | applying it twice changes nothing more |
| HttpRequestExtensions.ToPascalCaseIgnoringCase | WebApi/Extensions/HttpRequestExtensions.cs:10-13 | the Pascal-case key equals the original ignoring case |
| HttpRequestExtensions.QueryValue | WebApi/Extensions/HttpRequestExtensions.cs:7 | no values give the empty string, and one value gives itself |
| HttpRequestExtensions.NonEmpty | WebApi/Extensions/HttpRequestExtensions.cs:7 | exactly the non-empty values are kept, each as often as given |
| HttpRequestExtensions.NonEmptyOfConcat | WebApi/Extensions/HttpRequestExtensions.cs:7 | the kept values stay in order: dropping empties distributes over concatenation |
| HttpRequestExtensions.GetFilters | WebApi/Extensions/HttpRequestExtensions.cs:5-8 | succeeds exactly when no key is empty and no two keys collide in Pascal case, then maps each key to its joined values, in order |
| HttpRequestExtensions.DistinctQueryKeysNeverCollide | WebApi/Extensions/HttpRequestExtensions.cs:5-8 | query keys distinct ignoring case and non-empty never make `GetFilters` throw |

## Left out

- Case mapping is ASCII only (`Text.LowerChar`, `Text.UpperChar`). .NET's culture-aware `ToLower` and `ToUpper` cover all of Unicode.
- Date parsing with the four `dateFormats` is an opaque function of the culture (`Culture.parseExactDate`). The format strings themselves are not modelled.
- `Convert.ChangeType` for `int`, `decimal` and `bool` is the culture's parser, and is likewise opaque.
- Expression trees, reflection and the LINQ provider are modelled as a `Pred` datatype and its `Eval`. SQL translation is not modelled, and neither are a store collation or the server's comparison of text.
- Ordering is the stable insertion order of an `OrderBy`, with nulls last ascending and first descending. The store's tie order and collation are not modelled.
- Schema.Member: only members of the catalogue's record types resolve. `Expression.PropertyOrField` also resolves members of built-in types (`DateTime.Year`, `Month`, `Day` and `Date`, `string.Length`, `Nullable<T>.Value` and `HasValue`, a collection's `Count`), so a path such as `CreatedAt.Year=2024,2025` builds a predicate in the source but none in the model.
- Mapster's `ProjectToType<M>` is a function parameter of `Repository.GetPaginated`.
- `Repository.GetPaginated` follows LINQ-to-objects `Skip` and `Take`: a negative count skips nothing or takes nothing. PostgreSQL rejects a negative `OFFSET` or `LIMIT`, so on the deployed store every page number below the page size (the default page 1 of 10 skips -9) fails instead of repeating the first page, and a negative `PageSize` fails instead of giving an empty page. `Repository.DefaultListing` and the first row of "## Findings" describe the LINQ behaviour.
- `async`, `await`, cancellation tokens, logging (`Console.WriteLine` in the catch) and `DateTime.Now`/`UtcNow` are left out. The clock is a `now` parameter.
- The repository is specialised to `Product`, the application's only entity, and `M` is a projection parameter.
- `Repository.EntityRepository.Update`: EF's change detection is summarised by the `isTracked` parameter. A tracked entity is saved only when its values differ from the stored row.
- `Repository.EntityRepository.Create`: a successful save reports 1. Other pending changes in the same context are not modelled.
- Concurrency tokens, database-generated defaults other than the identity, and `IsDeleted`'s default are not modelled.
- `HttpRequestExtensions.QueryValue` models `StringValues.ToString()` as the non-empty values joined with `,`.
- `HttpRequestExtensions.DistinctQueryKeysNeverCollide` takes as a premise that ASP.NET's query collection has keys distinct ignoring case.
- `Product.Name`'s `default!` is the empty string in `Products.Product.Empty`.
- `Guid` and `TimeSpan` parsing is left out. A plain value on such a property always ends at the throwing constant, whatever it parses to.

## Findings

| source | as written | input that shows it | evidently intended | confidence | as-written member | corrected member |
|---|---|---|---|---|---|---|
| Infrastructure.Abstractions/Extensions/QueryableExtension.cs:354 | skips `PageNumber - 1 * PageSize`, that is `PageNumber - PageSize` records | 25 records, page 2 of size 10: the window is records 1 to 10, the same as page 1 | skip `(PageNumber - 1) * PageSize` records, so page 2 is records 11 to 20 | not executed; high | Paging.TwentyFiveRecordsPageTwo | Paging.IntendedPageIsNthBlock |
| Infrastructure/Repositories/EntityRepository.cs:38 | `hasNext` is `(PageNumber + 1) * PageSize < count` | 25 records, page 2 of size 10: records 21 to 25 remain, yet `hasNext` is false | `PageNumber * PageSize < count` | not executed; high | Paging.TwentyFiveRecordsPageTwo | Paging.IntendedTwentyFiveRecordsPageTwo |

`Repository.GetPaginated` keeps the arithmetic as written, since it models what the repository returns. The corrected window and flag are `Paging.IntendedPagination` and `Paging.IntendedHasNext`.
