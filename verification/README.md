# Model and proofs for a networked LRU cache

The repository is a cache with a byte limit, a server that offers it over TCP and UDP, and a client
that looks like a local cache. This project models its core in Dafny and proves what it is for.

**The cache** (`impl/`). A chained hash table is driven through pointers to link slots and rehashed
in place; each link shares its key with a node of a doubly linked recency list that counts bytes on
its own and names the victims of an eviction. `Replacement`, `HashTable`, `Bookkeeping` and
`HashCache` model this in the heap, with an explicit set of allocated blocks, so that a double free
or a leak would be a failing proof. All of it is proved to behave like one short list of entries
(`LruList`), over every run of calls, and what the cache promises is proved about that list
(`LruList`, `LruKept`, `LruRuns`). Keys are C strings: what `strcmp` and `strlen` see of a block.
Byte counts are 64-bit and wrap, so the documented memory limit is kept by all runs exactly when
`maxmem + 2^32 <= 2^64`. A run that breaks it for a larger `maxmem` needs 2^64 bytes of values alive
at once, so this is a limit of the arithmetic; on a 64-bit machine `malloc` fails before.

**JSON** (`json/json.hpp`). `JsonLexer` gives the grammar of tokens and `JsonAutomaton` the goto
program generated for it, label by label; `JsonString`, `Unicode` and `JsonNumber` cover strings,
surrogates and integers, `JsonUtf8` the question when a decoded string is UTF-8; `JsonDump` and
`JsonParser` are the printer and the recursive-descent parser, each a specification function and the
code proved to compute it. `JsonTokens`, `JsonEscapes` and `JsonLayout` say by the bytes which
tokens there are, what an escape stands for and how a value is laid out. `JsonRoundTrip` proves that
parsing undoes printing, and `JsonGrammar` that the parser accepts exactly what a grammar derives
that does not know about it, and reads it as what the derivation means. `JsonOrder` treats
`operator<`: mixed comparisons cast unsigned numbers to signed ones, so it is a strict weak order
only for certain sets of numbers, and the sets are characterised exactly; `JsonLexicographic` says
which order it is.

**Buffers** (`asio/`). `BuffersIterator`, `BufferCopy` and `StreamBuf` are the scatter-gather loops
the server reads its messages through. In `StreamBuf`, `reserve` moves bytes before it checks their
length; the state after the exception is stated exactly, with the condition under which the data
survives. `commit` also takes bytes nobody has written; runs in which none does are first in, first
out, and after one that does the past no longer determines the data.

**The wire** (`client.cpp`, `server.cpp`, `user_con.hpp`). `Wire` models the strings that are sent,
and `WireBytes` proves how the server takes any message apart; `RemoteCache` puts client, server,
cache and parser together and proves that a remote run is answered like a local one until a get
finds an empty value, which the server stores without a NUL byte and reads past the end of. The
server puts values into its replies without escaping them: `ReplyExact` and `RemoteExact` prove
which keys and values survive that, and so when a get returns what was put.

Strings are byte sequences. A C function with pointer results becomes a method that returns what the
pointer leads to; an exception is an `Err` or `None`, and so is reading past the end of a stored
value or dropping the last byte of an empty string.

Main results: `HashCache.RunClient`, `LruList.MemoryBound`, `LruList.EvictionExact`,
`LruKept.SetKeepsExactly`, `LruRuns.LargerCacheHitsMore`, `JsonAutomaton.Lexer.Scan`,
`JsonRoundTrip.DumpThenParse`, `JsonGrammar.ParsedExactly`, `JsonOrder.OrderedExactlyWhenCoherent`,
`BufferCopy.CopyLimited`, `StreamBuf.RunStream`, `RemoteExact.GetAfterPutExactly` and
`RemoteCache.RunRemoteClient`.

## Model

| member | source | states |
|---|---|---|
| LruList.StepKeeps | impl/hash_cache.c:133-176 | A set, get or delete keeps keys distinct and every value within maxmem. |
| LruList.RunKeeps | impl/hash_cache.c:133-176 | So does every run of calls from create_cache. |
| LruList.DeleteKeeps | impl/hash_cache.c:157-176 | Deleting a key leaves no entry for it and keeps the rest distinct. |
| LruList.EvictCountAt | impl/lru_replacement.c:100-111 | With an exact total, an entry is given up iff its size, those of all more recent entries and the new size exceed maxmem. |
| LruList.EvictCountLeavesRoom | impl/lru_replacement.c:100-111 | What is kept and the new value together fit into maxmem. |
| LruList.EvictionMakesRoom | impl/lru_replacement.c:79-111 | However often the 64-bit total has wrapped, after the eviction the assertion of create_info holds. |
| LruList.EvictionExact | impl/lru_replacement.c:100-141 | The entries given up are exactly those that have to go, and leave room, iff the 64-bit total does not wrap; if it wraps none is given up. |
| LruList.WrappedEvictsNone | impl/lru_replacement.c:100-111 | When the total wraps nothing is evicted although something would have to be. |
| LruList.SetNew | impl/hash_cache.c:133-142 | A new key whose value fits into the wrapped total is appended and evicts nothing. |
| LruList.StepBounded | impl/hash_cache.c:133-176 | One call keeps the true sum of stored sizes within maxmem when maxmem + 2^32 <= 2^64. |
| LruList.RunBounded | impl/hash_cache.c:133-176 | So does every run. |
| LruList.OverflowingRun | impl/lru_replacement.c:100-111 | For every larger maxmem there is a run, under keys strcmp tells apart, after which values of 2^64 bytes are stored. |
| LruList.MemoryBound | impl/lru_replacement.c:79-111 | All runs stay within maxmem iff maxmem + 2^32 <= 2^64. |
| LruKept.SetLeaves | impl/hash_cache.c:133-142 | A set drops the old entry of its key; an oversized value changes nothing else, any other is put behind the longest end of the other entries, in their order, that leaves room for it as far as 64 bits can tell. |
| LruKept.SetKeepsExactly | impl/hash_cache.c:96-142 | Without a 64-bit wrap, an entry with another key is still there after a set iff the value is refused or the entry, the later ones with other keys and the value fit into maxmem; nothing else is there but the new entry, which is last, and there iff the value is not refused. |
| LruKept.RunKeepsExactly | impl/hash_cache.c:96-142 | So it is after every run from create_cache, while maxmem + 2^32 <= 2^64. |
| LruKept.GetAndDeleteLeave | impl/hash_cache.c:143-176 | A get puts the entry of its key behind the others, which keep their order, and a delete drops it and nothing else. |
| LruKept.EvictCountIsLeast | impl/lru_replacement.c:100-111 | The policy gives up the shortest prefix without which the rest and the new item fit, modulo 2^64. |
| LruRuns.RunIsFreshAndByRecency | impl/hash_cache.c:133-176 | After every run each entry holds the last value written under its key, and entries are ordered by the last call that named them. |
| LruRuns.NoStaleAnswer | impl/hash_cache.c:143-156 | A get answers with the last value written under its key, or with nothing. |
| LruRuns.VictimsAreLeastRecentlyUsed | impl/lru_replacement.c:100-141 | Every key a set evicts was last used before every key it keeps. |
| LruRuns.EverythingIsAMap | impl/hash_cache.c:133-176 | Without eviction the list is the map of last writes. |
| LruRuns.PerfectWhileItFits | impl/hash_cache.c:133-176 | While all live data fits nothing is evicted, and a get finds exactly the last write. |
| LruRuns.RunsIncluded | impl/lru_replacement.c:100-147 | With one value size and any two capacities, the smaller cache is at all times a subsequence of the larger one fed the same calls. |
| LruRuns.LargerCacheHitsMore | impl/lru_replacement.c:100-147 | Hence a hit in the smaller cache is a hit in the larger, with the same value. |
| LruRuns.SmallerHitsMore | impl/lru_replacement.c:123-135 | For any two different sizes three sets make the smaller cache hit where the larger one misses. |
| LruRuns.IncludedExactlyForOneSize | impl/lru_replacement.c:100-147 | For a set of value sizes, inclusion holds for all runs and all two capacities iff the set has at most one element. |
| LruRuns.UniformEviction | impl/lru_replacement.c:100-111 | With one size a set evicts one entry if the wrapped total of one more exceeds maxmem, and none otherwise, whatever maxmem is. |
| Blocks.UpToNul | impl/hash_cache.c:64 | What strcmp and strlen see of a block: a prefix without NUL bytes, up to the first one. |
| Blocks.CopyOfText | impl/hash_cache.c:112-113 | A copy of strlen + 1 bytes is the same C string. |
| Blocks.Heap.MakeCopy | impl/helper.c:10-14 | make_copy allocates a new block with the first bytes of a live one. |
| Blocks.Heap.Free | impl/hash_cache.c:157-190 | free demands a block that is still allocated, so no verified call frees twice. |
| Replacement.Policy.constructor | impl/lru_replacement.c:25-33 | create_policy: an empty list that holds no memory. |
| Replacement.Policy.MoveInfoToHead | impl/lru_replacement.c:45-58 | An unlinked node becomes the most recent one; the list stays doubly linked. |
| Replacement.Policy.RemoveInfoFromList | impl/lru_replacement.c:59-77 | A node at any place is bypassed in both directions, top and bottom following. |
| Replacement.Policy.CreateInfo | impl/lru_replacement.c:79-91 | Appends a node and its size; its precondition is the assertion of the source. |
| Replacement.Policy.DeleteInfo | impl/lru_replacement.c:93-99 | Removes a node and its size from the list and the byte count, and frees it. |
| Replacement.Policy.NumToDelete | impl/lru_replacement.c:100-111 | The loop counts the shortest least recent prefix to give up, and stops at the node behind it. |
| Replacement.Policy.MakeItemArray | impl/lru_replacement.c:112-121 | The array holds the identifiers of that prefix, in order. |
| Replacement.Policy.IdsToDeleteIfAdded | impl/lru_replacement.c:123-141 | Refuses exactly what is larger than maxmem; otherwise names the victims, allocating an array only if there are some. |
| Replacement.Policy.InfoGotten | impl/lru_replacement.c:143-147 | A hit moves its node to the most recent end and changes nothing else. |
| Replacement.Policy.Delete | impl/lru_replacement.c:35-44 | delete_policy frees every node still listed and the policy, each once. |
| Replacement.BypassedIsLinked | impl/lru_replacement.c:59-77 | A list with one node bypassed is the doubly linked list of the others. |
| HashTable.FoundIsTheOnly | impl/hash_cache.c:59-68 | What querry_hash finds is the only link with that key; if it finds an empty slot there is none. |
| HashTable.Attached | impl/hash_cache.c:69-74 | Storing a new link in the last slot of its chain keeps every link in the bucket its key hashes to. |
| HashTable.Detached | impl/hash_cache.c:157-162 | Making a slot lead past its link removes that link and keeps the rest placed. |
| HashTable.RedirectedPast | impl/hash_cache.c:157-162 | A chain with one slot redirected past its link spells out the chain without it. |
| HashTable.MovedOne | impl/hash_cache.c:83-93 | During a rehash, moving the next link moves exactly that one and none twice. |
| HashTable.AllMoved | impl/hash_cache.c:83-94 | When all old chains are done every link has been moved. |
| Bookkeeping.KeptRemoveAt | impl/hash_cache.c:157-173 | Dropping a link keeps links, list nodes, sizes and entries in step, and the byte count exact modulo 2^64. |
| Bookkeeping.KeptAppend | impl/hash_cache.c:111-126 | So does adding a link for a new key. |
| Bookkeeping.KeptTouch | impl/hash_cache.c:143-149 | So does moving a link to the most recent end. |
| Bookkeeping.RoomAfterEviction | impl/hash_cache.c:133-142 | After the evictions of a set the new value fits and its key is gone. |
| HashCache.Cache.Create | impl/hash_cache.c:45-57 | create_cache returns an empty consistent cache and allocates exactly what the cache owns. |
| HashCache.Cache.QueryHash | impl/hash_cache.c:59-68 | The slot of the key if it is there, the last slot of its chain otherwise. |
| HashCache.Cache.AssignToLink | impl/hash_cache.c:69-74 | A new link with the data is attached in the empty slot; the table then spells out all links and it. |
| HashCache.Cache.Attach | impl/hash_cache.c:69-74 | Storing a link through its empty slot adds it to the table and to no other chain. |
| HashCache.Cache.Detach | impl/hash_cache.c:157-162 | Storing the successor through the slot takes exactly this link out of the table. |
| HashCache.Cache.MoveLink | impl/hash_cache.c:84-92 | One link is put into the new table, where its key hashes to. |
| HashCache.Cache.MoveChain | impl/hash_cache.c:84-92 | One old chain is moved link by link; its end is reached. |
| HashCache.Cache.ResizeTable | impl/hash_cache.c:75-95 | The rehash relinks every link into the new table, losing, duplicating or cycling none, and keeps contents and recency. |
| HashCache.Cache.DelLink | impl/hash_cache.c:157-173 | Deletes the link in a slot, its node and its two copies, and nothing else; an empty slot is left as it is. |
| HashCache.Cache.CacheDelete | impl/hash_cache.c:174-176 | The contents become those without the key. |
| HashCache.Cache.CacheGet | impl/hash_cache.c:143-156 | Returns the stored block and size, moving the entry to the recent end, or null and 0. |
| HashCache.Cache.ShouldAddEvictDeletions | impl/hash_cache.c:96-110 | Evicts exactly the prefix the policy names, each identifier resolving to its own live link, and frees the array. |
| HashCache.Cache.InsertItem | impl/hash_cache.c:111-125 | Copies key and value, creates node and link, and appends the entry. |
| HashCache.Cache.AddToCache | impl/hash_cache.c:111-131 | The same with the resize: afterwards twice the number of elements is at most the table size. The table is doubled iff it would be more than half full. |
| HashCache.Cache.CacheSet | impl/hash_cache.c:133-142 | The contents become those of LruList.Set: an oversized value only drops the old entry. Key and value must not lie in blocks this set frees. |
| HashCache.Cache.MakeRoom | impl/hash_cache.c:133-140 | For any arguments: deletion and eviction leave exactly the surviving links and room for the value, and the key or value handed in is still allocated iff it is not a block of a link that went. |
| HashCache.Cache.SurvivingValues | impl/hash_cache.c:133-141 | The value of a link is among the blocks MakeRoom frees iff its link does not survive the set. |
| HashCache.Cache.OwnValueIsFreed | impl/hash_cache.c:133-141 | The value of a link is among the blocks a set under its own key frees. |
| HashCache.GetThenSet | impl/hash_cache.c:133-155 | A client gets a value and sets it under the same key: the set goes on to copy the value, and by then the block is freed. |
| HashCache.Cache.Destroy | impl/hash_cache.c:180-190 | Frees everything the cache owns, each block once, and nothing else; list and table are empty and both byte counters zero before delete_policy. |
| HashCache.Cache.NothingLeft | impl/hash_cache.c:181-187 | When every chain is empty, so is the recency list, and all counters are zero. |
| HashCache.Cache.PolicyFacts | impl/hash_cache.c:96-126 | The two byte counts agree and equal the wrapped sum of the stored sizes. |
| HashCache.Cache.FoundIsIndex | impl/hash_cache.c:59-68 | A lookup in the table finds what a lookup in the list of entries finds. |
| HashCache.Call | impl/hash_cache.c:133-176 | A call on the linked structures does to the contents, and answers, what the call on the list does. |
| HashCache.RunClient | impl/hash_cache.c:45-190 | Refinement over whole runs: every call is answered as by the plain list, and after destroy_cache the heap is what it was. |
| Unicode.DirectCodePoint | json/json.hpp:7149-7211 | A code point below 0x110000 that is no high surrogate is accepted; it becomes its UTF-8 form as section 3 of RFC 3629 has it iff it is no low surrogate. |
| Unicode.LoneLowSurrogate | json/json.hpp:7190-7196 | A lone 0xDC00 becomes ED B0 80, which is no UTF-8. |
| Unicode.SurrogatePair | json/json.hpp:7156-7176 | Every surrogate pair is accepted and becomes the UTF-8 form of the value section 2.2 of RFC 2781 gives it, within 0x10000 to 0x10FFFF. |
| Unicode.WhenToUnicodeThrows | json/json.hpp:7156-7211 | to_unicode throws iff a high surrogate lacks its partner or the code point is above 0x10FFFF. |
| JsonLexer.StringEnd | json/json.hpp:7456-7463 | The end of a string token is just past a quote inside the text. |
| JsonLexer.NumberEnd | json/json.hpp:7469-7540 | A number token ends after its first digit and inside the text. |
| JsonLexer.TokenAt | json/json.hpp:7426-8022 | A token starts where it is looked for, is not empty and ends at most one past the text, there only at the NUL sentinel. |
| JsonLexer.Scan | json/json.hpp:7264-8023 | The next token is the one at the first byte that is neither white space nor a byte order mark. |
| JsonTokens.SkippedExactly | json/json.hpp:7426-7455 | The next token is at q iff all before q is tab, line feed, carriage return, space or EF BB BF, and none of these stands at q. |
| JsonTokens.StringExactly | json/json.hpp:7456-7463 | A string token is what lies between quotes made of bytes from 0x10 on other than quote and backslash, eight simple escapes and escapes of four hexadecimal digits of either case. |
| JsonTokens.NumberExactly | json/json.hpp:7469-7540 | The scanner takes the longest number at a digit: a zero or digits without a leading one, then perhaps a point and digits, then perhaps an e or E, a sign and digits. |
| JsonTokens.TokenExactly | json/json.hpp:7426-8022 | Which token a text begins with, by its first bytes. |
| JsonTokens.TokenEnds | json/json.hpp:7426-8022 | And where it ends. |
| JsonTokens.NumberMeans | json/json.hpp:8310-8370 | An accepted number token that is an integer of the right size is this integer; any other is left to strtod with its whole text. |
| JsonString.Hexify | json/json.hpp:5885-5888 | The digit written for a number below 16 has that value. |
| JsonString.EscapeIsLonger | json/json.hpp:5807-5813 | Escaping never shortens, and a string is its own escaping exactly when no extra space is needed: the early return is right. |
| JsonString.ExtraSpace | json/json.hpp:5758-5798 | extra_space is exactly the growth of the escaped string. |
| JsonString.PutControl | json/json.hpp:5881-5899 | The six bytes of a control character are completed behind a backslash that is there already; the rest of the filler is untouched. |
| JsonString.PutByte | json/json.hpp:5820-5908 | One turn of the loop writes the escape of one byte and leaves both sides as they were. |
| JsonString.EscapeString | json/json.hpp:5807-5911 | Filling the pre-sized buffer in place gives the recursive escaper; the position never leaves the buffer and ends at its end. |
| JsonString.InsideToken | json/json.hpp:8089-8177 | No position get_string reads in a scanned token lies past its closing quote. |
| JsonString.Piece | json/json.hpp:8092-8177 | A piece of a token is not empty, ends inside it, and leaves a valid rest. |
| JsonString.PieceFails | json/json.hpp:8139-8168 | get_string throws at a piece iff it is the escape of a high surrogate without that of a low one behind it. |
| JsonString.EscapedByte | json/json.hpp:5820-5908 | One escaped byte is scanned over and read back whatever follows it. |
| JsonString.EscapedBody | json/json.hpp:8083-8181 | The escaped body is read back up to its quote. |
| JsonString.StringRoundTrip | json/json.hpp:7598-7712 | For every byte string, scan on its quoted escaping gives a string token ending at the second quote, and get_string gives the string back. |
| JsonString.DecodesExactly | json/json.hpp:8083-8181 | get_string succeeds on a token iff every high surrogate escape in its text has a low one behind it. |
| JsonEscapes.CharacterRead | json/json.hpp:8133-8168 | Where a token holds the four hexadecimal digits of a character, the most significant first and in either case, get_string reads its UTF-8 form and goes on behind them. |
| JsonEscapes.PairRead | json/json.hpp:8139-8166 | The escapes of a high and a low surrogate are read as the UTF-8 form of the character they stand for. |
| JsonEscapes.LowRead | json/json.hpp:8133-8168 | The escape of a lone low surrogate is read as three bytes that are no UTF-8. |
| JsonEscapes.HighAloneFails | json/json.hpp:8139-8166 | A high surrogate without a low one behind it is not read. |
| JsonEscapes.EscapeHasNumber | json/json.hpp:8145-8146 | Every escape with a u in a token is that of one number. |
| JsonEscapes.SimpleRead | json/json.hpp:8100-8132 | The eight simple escapes, by their letters. |
| JsonEscapes.RawRead | json/json.hpp:8172-8178 | Any other byte stands for itself. |
| JsonUtf8.EscapedChar | json/json.hpp:8095-8168 | An escape stands for one UTF-8 character unless it is that of a lone low surrogate, which stands for bytes that are none. |
| JsonUtf8.DecodedIsUtf8 | json/json.hpp:8083-8181 | The decoded string is UTF-8 iff the text of the token is and no low surrogate is escaped on its own. |
| JsonAutomaton.StringStep | json/json.hpp:7598-7712 | Every goto between the string labels keeps the outcome the grammar gives. |
| JsonAutomaton.NumberStep | json/json.hpp:7469-7870 | Every goto between the number labels, with its marker, keeps the end of the number. |
| JsonAutomaton.DispatchMeaning | json/json.hpp:7311-7430 | The first goto sorts bytes as the grammar does, and only label 2 can stand on the sentinel. |
| JsonAutomaton.OneByteTokens | json/json.hpp:7431-7589 | The labels that return at once return the token of their byte. |
| JsonAutomaton.Lexer.ScanString | json/json.hpp:7456-7712 | The string labels find the end of the token, or back up to the byte after the quote. |
| JsonAutomaton.Lexer.ScanNumber | json/json.hpp:7469-7870 | The number labels, backing up to the marker, give the number token or an error for a lone minus. |
| JsonAutomaton.Lexer.ScanWord | json/json.hpp:7556-7597 | true, false, null and the byte order mark are matched letter by letter, or the scan backs up by all but one byte. |
| JsonAutomaton.Lexer.SkipSpaces | json/json.hpp:7442-7455 | White space is passed without changing the next token. |
| JsonAutomaton.Lexer.Scan | json/json.hpp:7264-8023 | The goto automaton computes the next token of the grammar, terminates, and reads no byte beyond the sentinel. |
| JsonAutomaton.Lexer.ReadPiece | json/json.hpp:8089-8177 | One turn of the loop of get_string, with every read inside the token. |
| JsonAutomaton.Lexer.GetString | json/json.hpp:8083-8181 | get_string gives the decoding of the token, or the first error in it. |
| JsonValue.BytesLessTrichotomy | json/json.hpp:5427-5431 | Of two strings exactly one is less, or they are equal. |
| JsonValue.BytesLessTransitive | json/json.hpp:5427-5431 | The order of strings is transitive. |
| JsonValue.PutIsUpdate | json/json.hpp:8494 | result[key] = value changes what is found under this key and under no other. |
| JsonValue.PutKeepsSorted | json/json.hpp:8494 | It keeps an object sorted with distinct keys and brings in nothing else. |
| JsonValue.ReparsedIsEqual | json/json.hpp:5210-5289 | A value whose non-negative signed integers became unsigned is equal to it under operator==. |
| JsonNumber.Decimal | json/json.hpp:6035-6045 | The decimal text is digits only, with a leading zero only for zero. |
| JsonNumber.DecimalValue | json/json.hpp:8308-8352 | strtoull reads the decimal text of a number as that number. |
| JsonNumber.NumberEndOf | json/json.hpp:7484-7540 | The scanner takes exactly the decimal text when nothing behind it belongs to a number. |
| JsonNumber.NumberRejected | json/json.hpp:8308-8370 | get_number rejects a scanned token iff it is a zero before a digit, or an integer too large for its type before a point. |
| JsonNumber.IntegerRoundTrip | json/json.hpp:8308-8372 | A printed integer is scanned as one token and read back, unsigned unless negative. |
| JsonDump.IndentComesBack | json/json.hpp:5953-5976 | Subtracting the indent step undoes adding it, also when the unsigned sum has wrapped. |
| JsonDump.Dump | json/json.hpp:5930-6081 | The stream receives the text of the value in the given style. |
| JsonDump.DumpArray | json/json.hpp:5982-6020 | Brackets, separators and indentation of an array, in loop order. |
| JsonDump.DumpElements | json/json.hpp:6001-6009 | The loop over the elements streams exactly their text. |
| JsonDump.DumpObject | json/json.hpp:5940-5980 | The same for an object. |
| JsonDump.DumpMembers | json/json.hpp:5959-5969 | The loop over the members streams their escaped keys and values. |
| JsonLayout.DumpIsLayout | json/json.hpp:5930-6081 | The text of a value is its tokens in order; pretty text has a line break and step times depth spaces after opening brackets and commas and before closing brackets, one space after colons, and nothing else between tokens. |
| JsonLayout.CompactIsTokens | json/json.hpp:5930-6081 | Compact text is its tokens with nothing between them. |
| JsonLayout.TokensAreSolid | json/json.hpp:5930-6081 | No token but a string holds white space. |
| JsonLayout.EscapedAs | json/json.hpp:5807-5905 | How each byte of a string is printed, by its value. |
| JsonLayout.EscapeAppend | json/json.hpp:5807-5905 | A string is escaped byte by byte. |
| JsonLayout.DigitsOfDecimal | json/json.hpp:6034-6044 | The digits of a printed integer are its remainders by ten. |
| JsonParser.ParseValue | json/json.hpp:8426-8615 | A parsed value consumes at least its first token and leaves a scanned one at hand. |
| JsonParser.ParseElements | json/json.hpp:8537-8551 | The loop over the elements leaves a token behind those it consumed. |
| JsonParser.ParseMembers | json/json.hpp:8459-8500 | So does the loop over the members. |
| JsonParser.ParsedIsWellFormed | json/json.hpp:8426-8615 | In every parsed value all objects are maps with distinct keys. |
| JsonParser.Parser.constructor | json/json.hpp:8397-8402 | The first token is read on construction. |
| JsonParser.Parser.GetToken | json/json.hpp:8618-8622 | Reads the next token; its precondition, met by every caller, is that the last one was neither the end of input nor an error. |
| JsonParser.Parser.ParseInternal | json/json.hpp:8426-8615 | The recursive descent computes ParseValue and stands on the token behind the value. |
| JsonParser.Parser.ParseArray | json/json.hpp:8537-8564 | The do-while loop over the elements computes ParseElements. |
| JsonParser.Parser.ParseObject | json/json.hpp:8459-8507 | The do-while loop over the members computes ParseMembers. |
| JsonParser.Parser.ReadKey | json/json.hpp:8467-8490 | Key, colon and first token of the value. |
| JsonParser.Parser.ParseAll | json/json.hpp:8413-8422 | One value and the end of the input, or an exception. |
| JsonParser.AfterOpening | json/json.hpp:8440-8456 | Behind an opening bracket: the closing one, or the loop, but no comma. |
| JsonGrammar.ValueDerives | json/json.hpp:8426-8615 | The tokens a parsed value takes are those of a tree of the grammar that means this value. |
| JsonGrammar.ElementsDerive | json/json.hpp:8537-8556 | The elements loop takes values separated by single commas and the closing bracket, and yields their meanings in order. |
| JsonGrammar.MembersDerive | json/json.hpp:8459-8501 | The members loop takes keys, colons and values separated by single commas and the closing brace, and yields the members these assignments leave. |
| JsonGrammar.ValueParses | json/json.hpp:8426-8615 | Readable tokens that begin with those of a tree are parsed as what the tree means, up to what follows them. |
| JsonGrammar.ElementsParse | json/json.hpp:8537-8556 | The elements loop accepts every nonempty list of values, as their meanings in order. |
| JsonGrammar.MembersParse | json/json.hpp:8459-8501 | The members loop accepts every nonempty list of members, as what assigning them in turn leaves. |
| JsonGrammar.ReadableMeans | json/json.hpp:8083-8370 | A token is accepted by get_string or get_number iff its text has paired surrogates, or is not of the rejected kind. |
| JsonGrammar.LastFieldCounts | json/json.hpp:8459-8501 | Of the fields with one key the last one gives the value, and the members stand in the order of their keys. |
| JsonGrammar.ParsedExactly | json/json.hpp:8413-8422 | parse reads a text as a value iff all surrogate escapes are paired, no number is a zero before a digit or too large before a point, and the tokens with their values are those of a tree of the grammar that means this value, and the end of input. |
| JsonGrammar.AcceptedExactly | json/json.hpp:8413-8422 | parse accepts a text iff its tokens are those of a tree, under the same conditions on the text, and no two such trees differ in what they mean. |
| JsonRoundTrip.ValueBack | json/json.hpp:8426-8615 | Wherever a text holds a printed value that nothing continues, the parser returns the value and the token behind it. |
| JsonRoundTrip.ArrayBack | json/json.hpp:5982-6020 | A printed array is parsed back, with or without line breaks. |
| JsonRoundTrip.ObjectBack | json/json.hpp:5940-5980 | A printed object is parsed back with its members in order. |
| JsonRoundTrip.ElementsBack | json/json.hpp:8537-8551 | The loop rebuilds the elements it is given, front to back. |
| JsonRoundTrip.MembersBack | json/json.hpp:8459-8497 | The loop rebuilds the members it is given, front to back. |
| JsonRoundTrip.DumpThenParse | json/json.hpp:2080-2094 | For every float-free value and every indent, parse(dump(j)) == j under operator==. |
| JsonRoundTrip.ParseDumpParse | json/json.hpp:8413-8422 | Every accepted text without floats denotes a value that survives printing and parsing. |
| JsonOrder.CompareAgrees | json/json.hpp:5400-5482 | operator< and operator== are the negative and zero outcomes of one antisymmetric comparison. |
| JsonOrder.CompareChains | json/json.hpp:5400-5482 | That comparison is transitive on trees whose numbers are coherent. |
| JsonOrder.OrderedExactlyWhenCoherent | json/json.hpp:5400-5482 | Over all trees with numbers from a set, operator< is a strict weak order with incomparability operator== iff no large unsigned number, seen as signed, is at most a signed one that is at most a small unsigned one. |
| JsonOrder.OrderedUpToInt64Max | json/json.hpp:5163-5184 | In particular when no unsigned number exceeds INT64_MAX. |
| JsonOrder.NotOrderedAmongAllNumbers | json/json.hpp:5469-5476 | Among all numbers it is none: -1 < 1 < UINT64_MAX and -1 == UINT64_MAX. |
| JsonOrder.MixedComparison | json/json.hpp:5469-5476 | A signed and an unsigned number compare as integers exactly in the stated cases. |
| JsonLexicographic.BytesByPlace | json/json.hpp:5425-5429 | A string is less than another iff at the first place where they differ it has ended or its byte is smaller. |
| JsonLexicographic.ArraysByPlace | json/json.hpp:5410-5415 | An array is less than another iff at the first place where they differ it has ended or its element is less. |
| JsonLexicographic.ObjectsByPlace | json/json.hpp:5416-5421 | An object is less than another iff at the first member where they differ it has ended, or its key is less, or the key is the same and its value is less. |
| JsonLexicographic.KindsInOrder | json/json.hpp:5163-5187 | Null, booleans, numbers, objects, arrays and strings are in this order, whatever they hold. |
| JsonLexicographic.SimpleValuesInOrder | json/json.hpp:5422-5445 | Booleans, numbers of one kind and strings are compared by their values. |
| JsonLexicographic.MixedNumbersInOrder | json/json.hpp:5469-5476 | An unsigned number meets a signed one as the signed number that is the same modulo 2^64. |
| Wire.Strip | user_con.hpp:29-42 | A prefix of the string; what is cut off is white space, and only a string of white space alone may end in it. |
| Wire.StripString | user_con.hpp:34-42 | The backward loop computes it, leaving a string of white space as it is. |
| Wire.Find | user_con.hpp:21-28 | The first position with the character, or npos. |
| Wire.FindInBuf | user_con.hpp:21-28 | The index loop finds the first occurrence in the buffer. |
| Wire.DatagramArrives | client.cpp:92-116 | A text without NUL bytes arrives through a datagram buffer iff it fits, whatever the buffer held. |
| Wire.StripMessage | server.cpp:194-199 | strip takes the NUL byte off a client message and no more. |
| Wire.MessageDissected | server.cpp:123-131 | act_on_message takes a client message apart into its words, the last of them with the NUL byte behind the message. |
| WireBytes.TwoWords | server.cpp:123-133 | Of a message with a space, a slash behind it and another slash on the same line, the server takes what lies between the slashes, and behind the second the rest of the line, or all and a NUL byte if there is no line break. |
| WireBytes.OneWord | server.cpp:123-133 | With no slash behind the first one, the key is the rest of the line, or all and a NUL byte. |
| WireBytes.SlashOnLaterLine | server.cpp:123-133 | With the second slash on a later line the message cannot be taken apart. |
| WireBytes.BreakBeforeKey | server.cpp:123-133 | Nor with a line break before the slash that leads the key. |
| WireBytes.NoSpace | server.cpp:123-133 | Nor without a space. |
| WireBytes.NoSlash | server.cpp:123-133 | Without any slash the position wraps and the whole line is taken as the key. |
| WireBytes.SlashInWord | server.cpp:123-133 | With slashes before the space only, the first of them ends the key that starts the message. |
| WireBytes.KeyOfIsText | server.cpp:79-98 | The cache is asked for the key up to its first NUL byte. |
| WireBytes.GetHandled | server.cpp:79-90 | GET touches the entry of the key and replies, or fails if the reply cannot be made. |
| WireBytes.PutRequestHandled | server.cpp:91-94 | PUT sets the key to the second word. |
| WireBytes.DeleteHandled | server.cpp:95-98 | DELETE deletes the key. |
| WireBytes.OtherHandled | server.cpp:134-151 | HEAD changes nothing, and any other word but POST is an error. |
| WireBytes.DeleteLine | server.cpp:95-98 | A DELETE with a line break behind the key deletes this key. |
| WireBytes.PutLine | server.cpp:91-94 | A PUT with a line break behind the value stores what precedes it. |
| WireBytes.RequestBytes | client.cpp:125-136 | The bytes of the requests the client sends. |
| WireBytes.ReplyBytes | server.cpp:58-90 | The bytes of the replies: the stored value up to its first NUL byte in the JSON text, or ERROR. |
| WireBytes.StripExactly | user_con.hpp:29-42 | strip takes NUL bytes, tabs, line breaks and spaces off the end, unless there is nothing else. |
| WireBytes.LongValueNotSent | client.cpp:149-153 | A value larger than a datagram buffer is not sent. |
| Wire.ReplyUnpacked | client.cpp:138-142 | unpack_json of the reply make_json builds gives a plain key and value back. |
| ReplyExact.DecodedLength | json/json.hpp:8083-8181 | A decoded string is no longer than the text of its token, and as long only if it is this text. |
| ReplyExact.MembersFrom | json/json.hpp:8459-8501 | What an object has under a key after the members loop was there before or is read from a token the loop takes. |
| ReplyExact.MembersCost | json/json.hpp:8459-8501 | The members a text brings into an object take at least their own length in it. |
| ReplyExact.ReplyBounds | server.cpp:58-61 | Whatever text is stored under a plain key, the client reads no more than its length from the reply, and as much only if the text is plain and is what it reads. |
| ReplyExact.ReplyCarries | server.cpp:58-61 | For any key, any stored text and any value no shorter than it, unpack_json gives key and value from the reply iff the value is the text and neither key nor text holds a quote, a backslash or a byte below 0x10. |
| Wire.PlainToken | json/json.hpp:7598-7712 | A quoted string of bytes from 0x10 on without quotes and backslashes is scanned and read as it is. |
| RemoteCache.ActOnMessage | server.cpp:80-153 | The handlers do to the cache and reply what the model of the server says. |
| RemoteCache.SetArrives | server.cpp:91-94 | A PUT message becomes a set of the key with the value and its NUL byte, or with no bytes at all for an empty value. |
| RemoteCache.DeleteArrives | server.cpp:95-98 | A DELETE message becomes a delete of the key. |
| RemoteCache.GetAnswered | client.cpp:156-179 | A GET of an empty value makes the server fail; otherwise it is answered with the stored value without its NUL byte, or with nothing, whatever the buffers held. |
| RemoteCache.RemoteIsLocal | client.cpp:149-182 | A client call through the server fails iff it is a get that finds an empty value; otherwise it is the local call with the NUL byte added and taken off again. |
| RemoteCache.GetAfterPut | client.cpp:149-179 | A GET after a PUT of its key fails iff the value is empty, and otherwise returns it iff it fits into maxmem with its NUL byte. |
| RemoteExact.PutDissected | server.cpp:123-133 | Of a PUT with any value the server takes a key that is carried whole as it is, and of the value, without the white space at its end, exactly what is before the first line break, or all of it and a NUL byte. |
| RemoteExact.GetReturns | client.cpp:156-179 | If a GET returns a value, the reply fits the buffer, and the server holds a text that is longer than the value, or is the value; then key and value are plain. |
| RemoteExact.GetAfterPutExactly | client.cpp:149-179 | On any cache, for any value that is not empty and any key without slashes, line breaks and white space at its end: a GET after the PUT returns the value iff key and value are plain, the reply fits the buffer and the value with its NUL byte fits into maxmem. |
| RemoteExact.TailIsLost | client.cpp:149-155 | White space behind a value, such as the NUL byte of a C string, makes no difference to a PUT. |
| RemoteCache.RemoteCall | client.cpp:125-182 | Client strings, server handlers and the linked cache together compute the remote call. |
| RemoteCache.RunRemoteClient | client.cpp:125-182 | End to end over whole runs: up to the first get of an empty value, and to the end if there is none, every remote call is answered as by a local list cache; then nothing leaks. |
| Buffers.FlatAt | asio/include/asio/buffers_iterator.hpp:301-304 | Byte i of buffer c is the byte that many positions into the concatenation. |
| BuffersIterator.PlaceIsUnique | asio/include/asio/buffers_iterator.hpp:307-310 | The position determines buffer and offset, so comparing positions compares places. |
| BuffersIterator.PlaceBounds | asio/include/asio/buffers_iterator.hpp:301-304 | A place stands on the byte of the concatenation at its position, or at the end. |
| BuffersIterator.Iterator.Begin | asio/include/asio/buffers_iterator.hpp:127-144 | begin stands on the first byte, past empty buffers. |
| BuffersIterator.Iterator.End | asio/include/asio/buffers_iterator.hpp:147-164 | end stands at the total size. |
| BuffersIterator.Iterator.Dereference | asio/include/asio/buffers_iterator.hpp:301-304 | Gives the byte of the concatenation at the position. |
| BuffersIterator.Iterator.DistanceTo | asio/include/asio/buffers_iterator.hpp:448-451 | The difference of positions; zero iff both stand in the same place. |
| BuffersIterator.Iterator.Increment | asio/include/asio/buffers_iterator.hpp:313-333 | One position on, past empty buffers. |
| BuffersIterator.Iterator.Decrement | asio/include/asio/buffers_iterator.hpp:336-363 | One position back, past empty buffers. |
| BuffersIterator.Iterator.AdvanceForward | asio/include/asio/buffers_iterator.hpp:368-405 | The forward loop ends n positions on, never on an empty buffer. |
| BuffersIterator.Iterator.AdvanceBackward | asio/include/asio/buffers_iterator.hpp:406-444 | The backward loop terminates and ends n positions back. |
| BuffersIterator.Iterator.PreviousBuffer | asio/include/asio/buffers_iterator.hpp:427-442 | The inner loop finds the previous buffer that is not empty. |
| BuffersIterator.Iterator.Advance | asio/include/asio/buffers_iterator.hpp:366-445 | Any distance within the buffers, in either direction. |
| BuffersIterator.AdvanceIsWalk | asio/include/asio/buffers_iterator.hpp:313-445 | advance(n) and |n| single steps end in the same buffer at the same offset. |
| BuffersIterator.ToString | server.cpp:154-157 | The server reads exactly the first n bytes of the concatenation. |
| BufferCopy.OnRest | asio/include/asio/buffer.hpp:442-453 | operator+ leaves the rest of a buffer, with the addresses that belong to it. |
| BufferCopy.CopiedMeans | asio/include/asio/buffer.hpp:1694-1736 | A copy replaces a prefix of the concatenated target by that of the source and leaves the rest and the source as they were. |
| BufferCopy.CopiesAgree | asio/include/asio/buffer.hpp:1403-1421 | Any two of the loops, given the same source, target and count, leave the same memory. |
| BufferCopy.CopyBuffer | asio/include/asio/buffer.hpp:1295-1304 | One memcpy copies the smaller of the sizes and the limit, as the next part of a longer copy. |
| BufferCopy.CopyLimited | asio/include/asio/buffer.hpp:2187-2231 | The two-cursor loop with a limit terminates, returns the least of both totals and the limit, and replaces that much of the target by the start of the source and nothing else in memory. |
| BufferCopy.CopySequences | asio/include/asio/buffer.hpp:1694-1736 | The same without a limit. |
| BufferCopy.CopyToBuffer | asio/include/asio/buffer.hpp:1403-1421 | The one-target loop does the same. |
| BufferCopy.CopyFromBuffer | asio/include/asio/buffer.hpp:1574-1592 | So does the one-source loop. |
| BufferCopy.BufferSize | asio/include/asio/buffer.hpp:386-396 | The loop sums the sizes. |
| StreamBuf.RoomExactly | asio/include/asio/basic_streambuf.hpp:299-331 | prepare(n) succeeds iff size() + n <= max_size(), and keeps the data. |
| StreamBuf.PutCharExactly | asio/include/asio/basic_streambuf.hpp:274-297 | A character is taken iff size() < max_size(). |
| StreamBuf.TransferAppends | asio/include/asio/basic_streambuf.hpp:204-229 | prepare, write and commit used as documented append what was written. |
| StreamBuf.FirstInFirstOut | asio/include/asio/basic_streambuf.hpp:204-245 | Over every run of separate steps in which no commit takes bytes nobody wrote, the queue holds the bytes written and committed, from the first one not consumed on, at most max_size of them. |
| StreamBuf.ThrowKeepsData | asio/include/asio/basic_streambuf.hpp:299-331 | A prepare that throws keeps the data, whatever it is, iff nothing was consumed or the areas do not overlap. |
| StreamBuf.StreamBuf.constructor | asio/include/asio/basic_streambuf.hpp:131-140 | An empty queue over a zeroed vector. |
| StreamBuf.StreamBuf.Size | asio/include/asio/basic_streambuf.hpp:158-161 | size() is the length of data() and at most max_size(). |
| StreamBuf.StreamBuf.Reserve | asio/include/asio/basic_streambuf.hpp:299-337 | Finds room, shifts or grows as the queue says, keeping the data; if it throws, exactly the stated bytes are left. |
| StreamBuf.StreamBuf.PrepareArea | asio/include/asio/basic_streambuf.hpp:204-209 | The same for prepare, with n bytes to write to. |
| StreamBuf.StreamBuf.CommitBytes | asio/include/asio/basic_streambuf.hpp:223-229 | Appends the start of the put area, at most all of it, whoever wrote it; that is the start of what the user wrote iff the count, cut to the put area, is at most that. |
| StreamBuf.UnwrittenUndetermined | asio/include/asio/basic_streambuf.hpp:223-229 | Whenever a commit goes beyond what was written, another vector with the same data and the same written bytes gives another result. |
| StreamBuf.StreamBuf.ConsumeBytes | asio/include/asio/basic_streambuf.hpp:238-245 | Removes that many bytes from the front, at most all. |
| StreamBuf.StreamBuf.Underflow | asio/include/asio/basic_streambuf.hpp:254-265 | The next byte, or the end; nothing is removed. |
| StreamBuf.StreamBuf.Overflow | asio/include/asio/basic_streambuf.hpp:274-297 | Appends a character iff size() < max_size(). |
| StreamBuf.StreamBuf.Apply | asio/include/asio/basic_streambuf.hpp:204-297 | One step does to the buffer what it does to the queue. |
| StreamBuf.RunStream | asio/include/asio/basic_streambuf.hpp:204-337 | Refinement over whole runs: the sliding buffer holds what the queue holds, and throws when the queue says so. |
| StreamBuf.CommitUnwritten | asio/include/asio/basic_streambuf.hpp:223-229 | Two buffers that stand for the same queue differ after a commit of a byte nobody wrote. |

## Left out

- Sockets, resolvers, timers, `io_service` and the lifetimes of buffers handed to asynchronous calls: messages are delivered whole and in the order they were sent.
- Command-line parsing, `HEAD` beyond doing nothing, `POST` (the size and shutdown requests): a POST message is a failure in the model.
- Floating-point numbers: the value `strtod` computes, `%g` output and NaN. A float token is kept as its text, so that accepting and rejecting number tokens is modelled.
- JSON parser callbacks and stream input; without them no value is ever discarded and the buffer is never refilled.
- JSON containers beyond what parsing, printing and comparing need: iterators, conversions, allocators.
- `def_hash_fn`: the hash is an arbitrary function of the key's bytes.
- Failure of `malloc` and `calloc`, and wrap-around of `size_t` in the table size and the number of elements; of the byte counts wrap-around is modelled.
- `malloc(0)` is taken to return a block, as it does in the common C libraries. Where it returns a null pointer, `cache_get` answers null for a stored empty value, and what `HashCache.Cache.CacheGet` states of null does not hold for it.
- HashCache.Cache.AssignToLink: only for an empty slot. The branch that overwrites a link is left out, because `add_to_cache`, the one caller, never reaches it; that is proved where it is called.
- The data of a link and the identity of a policy node are constants of their objects, because the source writes them once.
- The `int` casts in `commit` and `consume`: stream buffer areas are taken to be below 2^31 bytes, and message lengths below 2^64.
- Position arithmetic of the iterators and buffers beyond `size_t`: totals are natural numbers.
- RemoteCache.RunRemoteClient: keys must be free of slashes, quotes, backslashes and bytes below 0x10 and not end in a space, values likewise, though slashes are allowed, and message and reply must fit a datagram buffer. What the run does after a get of an empty value is left open.
- RemoteExact.GetAfterPutExactly: not for keys with slashes or line breaks or with white space at the end. The server splits and strips these, so that a get may ask for another key than the put has set, and the answer depends on what others have stored there.
- Wire.ReplyUnpacked: the raw bytes 0x10 to 0x1F are admitted, as the scanner admits them, although section 7 of RFC 7159 does not.
- The documentation of `basic_streambuf` does not say what an exception leaves behind; `StreamBuf.StreamBuf.Reserve` states what the code does.
