# libnspsl public-suffix lookup, modelled in Dafny

libnspsl answers one question: given a hostname, where does its registrable part start?
The registrable part is the public suffix plus one more label. The whole answer comes from
`nspsl_getpublicsuffix` in `src/nspsl.c`. It walks the hostname's labels from right to left,
down a tree of suffix rules that is compiled into three constant tables:

- `stab` holds the Huffman-coded label text, as a bit string.
- `htable` is the Huffman code tree.
- `pnodes` is the rule tree, stored flat.

This project models that file and proves what it computes.

- `Ascii` models `ascii_is_alpha_upper` and `ascii_to_lower`, and the folding of a string to
  lower-case codes.
- `Tables` holds the tables. They are a value of type `Psl`, passed to every operation, and
  constrained by well-formedness predicates. No real suffix data is modelled.
- `Huffman` models `huffcasecmp`. The function `DecodeLabel` says which character codes a
  stored label decodes to. The method `HuffCaseCmp` keeps the C code's byte cursor
  (`stabidx`, `bitidx`, `curc`). It is proved to report equality exactly when the decoded label
  equals the lower-cased input.
- `Matcher` models `matchlabel`. `Rule` is the declarative matching rule:
  - the first exact match decides;
  - an exception child annuls that match;
  - failing an exact match, the last wildcard wins.

  `Scan` is the scan as the C loop runs it, and `MatchRule` proves the two agree. The method
  `MatchLabel` is proved equal to `Match`.
- `Walker` models `nspsl_getpublicsuffix`. `PublicSuffix` is the answer as a function. It is
  built from the label walk `WalkLabels`/`WalkOn` and the closing step `Answer`. Its contract
  says that a result always starts at offset 0 or just after a '.', and leaves at least one
  '.' after it. The method `GetPublicSuffix` runs the C loops and is proved equal to it.
- `Labels` says which offset the answer is. It splits the hostname at its '.'s into labels,
  numbered from the right, and defines `Path`, the node reached by matching the labels one
  after another from the root. `PublicSuffixLabels` proves the answer from that alone:
  - NULL when every label matches;
  - where label `m` begins, when labels `0 .. m-1` match and label `m` (with `m >= 1`) is
    the first that matches nothing;
  - when the rightmost label matches nothing, where the label to its left begins, or NULL
    when there is no such label.
- `Properties` proves properties of the whole lookup. The answer ignores letter case. A
  hostname ending in '.' gets the behaviour described below.

How C maps to the model:

- A C string is a `seq<char>`, one `char` per byte; a `char` above 0xFF stands for no byte. Only the part before the first NUL counts (`CString`).
- A NULL hostname is `None`. The returned `const char *` becomes an offset into the hostname
  (`Some(k)`), and NULL becomes `None`.
- Lengths are `int`. The first label of a name that ends in '.' has length -1, exactly as in
  the C code.

A fully qualified name (one with a trailing '.') is not looked up like the same name without
it. The comment at src/nspsl.c:157 and the trim at lines 158-160 suggest that the trailing
'.' is simply dropped, so that `example.com.` would be looked up as `example.com`. The code
does not do that. After the trim, the scan at lines 166-171 stops on that '.' at once and
steps past it. The first label tried is then the empty text after the '.', with length -1.
Only a wildcard child of the root can match it. `Properties.TrailingDot` proves what the code
returns when the root has no wildcard child: the last real label together with its trailing '.'.

## Model

| member | source | states |
|---|---|---|
| Ascii.IsAlphaUpper | src/nspsl.c:25-28 | the upper-case test holds only for 'A'..'Z', so it never holds for the label separator '.' or the terminating NUL |
| Ascii.ToLower | src/nspsl.c:25-42 | an upper-case ASCII letter maps to its lower-case letter, any other character is unchanged, and the result is never upper case |
| Ascii.FoldLower | src/nspsl.c:39-42 | lower-casing first changes nothing that folding sees: a lower-cased string folds to the same codes |
| Ascii.Fold | src/nspsl.c:78 | the codes compared for a string: one per character, each `ascii_to_lower` of it, so the folded text has the string's length |
| Ascii.ToLowerKeepsDot | src/nspsl.c:39-42 | lower-casing maps '.' and NUL to themselves and nothing else to them, so separators and the terminator survive folding |
| Huffman.Bit | src/nspsl.c:55-67 | bit `i` of the label table is bit `i % 8` of byte `i / 8` (the low bit of the byte shifted right), and is 0 or 1 |
| Huffman.WalkChar | src/nspsl.c:64-76 | a character's walk through the code tree, when it ends inside the label table, consumes at least one bit and stops inside the table |
| Huffman.DecodeLabel | src/nspsl.c:62-76 | decoding `n` characters gives exactly `n` codes and ends at or after the start bit, inside the table |
| Huffman.UnreadBit | src/nspsl.c:59-60 | proof step: the low bit of the shifted byte is the next bit of the label table, and one more shift moves to the bit after it |
| Huffman.DecodeFirst | src/nspsl.c:62-76 | proof step: a label of one or more characters is its first character's walk followed by the rest of the label |
| Huffman.WalkStep | src/nspsl.c:66-68 | proof step: one step of the inner loop: a terminal slot gives the character code; otherwise the walk continues from the node the slot names |
| Huffman.Advance | src/nspsl.c:67-75 | proof step: the cursor's low bit is the current table bit; shifting, or loading the next byte after bit 7, puts the cursor on the next bit |
| Huffman.NextBit | src/nspsl.c:67-75 | reads the bit under the cursor and leaves the cursor on the following bit |
| Huffman.OpenCursor | src/nspsl.c:54-60 | loading byte `labelidx >> 3` and shifting by `labelidx & 7` puts the cursor on bit `labelidx` |
| Huffman.WalkCode | src/nspsl.c:64-76 | the inner loop returns the code that the tree walk from the root decodes, and leaves the cursor just after that character |
| Huffman.NextCode | src/nspsl.c:62-76 | each outer iteration yields the next decoded character of the label and leaves the rest of the label to decode |
| Huffman.HuffCaseCmp | src/nspsl.c:44-85 | the comparison reports a match iff the decoded stored label equals the input's `len` characters folded to lower case |
| Matcher.Next | src/nspsl.c:126-130 | the next sibling is one slot on, or two exactly when the current child has children (its child slot sits between) |
| Matcher.Kids | src/nspsl.c:99-101 | the children of a node are read from its child slot: at most `child.count` of them, starting at `child.index`, all inside the node table |
| Matcher.Siblings | src/nspsl.c:99-103 | the children visited number at most `count`, all lie in the node table, and the scan starts at the first child slot |
| Matcher.SiblingsNext | src/nspsl.c:125-130 | each child in the scan follows the previous one by two slots when that one has children, by one otherwise |
| Matcher.KidsOk | src/nspsl.c:96-101 | proof step: a well-formed node with children has exactly `child.count` children, each readable |
| Matcher.FirstExact | src/nspsl.c:104-122 | the position found is the first exact match: every child before it fails to match, and the child there matches |
| Matcher.LastWildcardAt | src/nspsl.c:104-106 | the position found holds a wildcard, and no later child among those scanned is a wildcard |
| Matcher.IsWildcard | src/nspsl.c:104 | the wildcard test: a child is the wildcard `*` exactly when its label index is the wildcard sentinel |
| Matcher.WildcardResult | src/nspsl.c:104-106 | the remembered `ridx` after the first `n` children: -1 exactly when none of them is the wildcard, and otherwise a wildcard among them (the last one, by `LastWildcardAt`) |
| Matcher.Exact | src/nspsl.c:108-111 | a child matches the label exactly only when it is not the wildcard, its stored length is the label's length, and its decoded text is the folded label, so the label has that many characters |
| Matcher.IsException | src/nspsl.c:113-115 | a match on a child is annulled only when that child has children and exactly one of them, the exception sentinel |
| Matcher.WildcardStep | src/nspsl.c:104-106 | proof step: scanning one more child replaces the remembered wildcard exactly when that child is a wildcard |
| Matcher.FirstExactStep | src/nspsl.c:108-121 | proof step: with no exact match so far, the next child is the first exact match if it matches, and otherwise the first lies further on |
| Matcher.Rule | src/nspsl.c:104-121 | the matching rule picks -1 or one of the children, and a child it picks is one the walk can move to (a wildcard, or a label whose match no exception annuls) |
| Matcher.Scan | src/nspsl.c:101-131 | the scan returns -1 or one of the children, given that the remembered wildcard is -1 or a child |
| Matcher.Match | src/nspsl.c:90-134 | a match found is a child of `parent`, and a childless node matches nothing |
| Matcher.ScanRule | src/nspsl.c:101-131 | once the scan has seen no exact match and remembers the last wildcard seen, it ends where the matching rule says |
| Matcher.MatchRule | src/nspsl.c:90-134 | matchlabel obeys the rule: the first exact match unless it is an exception (then -1); otherwise the last wildcard child; otherwise -1 |
| Matcher.MatchNegativeLength | src/nspsl.c:104-111 | a negative length matches no label exactly, so only the last wildcard child (or -1) can result |
| Matcher.NegativeLengthNoMatch | src/nspsl.c:104-111 | under a node with no wildcard child, a negative length matches nothing |
| Matcher.MatchSubtree | src/nspsl.c:176 | the node a label matches lies in a well-formed subtree, so the walk can go on from it |
| Matcher.KeyIsFold | src/nspsl.c:78 | the key compared for a label of length `len` at `start` is that text folded to lower case, and is empty for a negative length |
| Matcher.Key | src/nspsl.c:78 | the `len` input characters of a label folded to lower case, as huffcasecmp compares them; as many codes as `len`, and none for a negative length |
| Matcher.SameLabel | src/nspsl.c:108-111 | a non-wildcard child matches iff its stored length equals `len` and its decoded label equals the folded input |
| Matcher.MatchLabel | src/nspsl.c:90-134 | the C scan returns exactly the child that the matching rule picks for the label, or -1 |
| Walker.CString | src/nspsl.c:156 | the C string is the longest NUL-free prefix: a prefix of the buffer, with no NUL in it, followed by a NUL when it is shorter than the buffer |
| Walker.At | src/nspsl.c:165-171 | the character the scan reads at `i`, which is the terminating NUL at the end of the string, so a '.' is only ever read inside the hostname |
| Walker.Walkable | src/nspsl.c:146-151 | the hostnames the walk runs on: not empty and not starting with '.'; for them the first label ends after position 0 even when a trailing '.' is trimmed |
| Walker.LabelStart | src/nspsl.c:165-171 | the label start is at most one past `p`, is 0 or just after a '.', and no '.' lies between it and `p` |
| Walker.StrLen | src/nspsl.c:156 | strlen returns the length of the C string |
| Walker.ScanBack | src/nspsl.c:165-171 | the back-scan loop stops at the start of the label containing `p` |
| Walker.WalkLabels | src/nspsl.c:164-188 | a walk that stops has tried more labels than before, and stops at 0 or just after a '.'; if it stops at the first label tried, it stops at that label's start; if later, a '.' remains after the stop |
| Walker.WalkOn | src/nspsl.c:186-187 | after a matched label the walk stops, if at all, before that label, at 0 or just after a '.', with a '.' after the stop |
| Walker.WalkStep | src/nspsl.c:173-187 | proof step: one step of the label loop: no match stops the walk at this label; a match on a label that starts the hostname ends the walk with every label matched; any other match continues from the matched node, with the next label ending at the '.' before this one |
| Walker.LastEnd | src/nspsl.c:156-161 | the first label ends at the end of the string, or one before a trailing '.' |
| Walker.Answer | src/nspsl.c:190-209 | any offset answered is a whole-label tail of the hostname: at 0 or after a '.', with a '.' still in it |
| Walker.PublicSuffix | src/nspsl.c:139-210 | NULL, empty and '.'-led hostnames give NULL; any answer is a whole-label tail of the C string that still holds a '.' (which label it is: `Labels.PublicSuffixLabels`) |
| Walker.GetPublicSuffix | src/nspsl.c:139-161 | the C procedure returns exactly the lookup's answer |
| Walker.NextLabel | src/nspsl.c:165-176 | one pass of the label loop body takes exactly the walk's next step; the label it finds starts at most one place past the scan position, and at 0 or just after a '.' |
| Walker.WalkHostname | src/nspsl.c:163-209 | the label loop plus the ending return exactly the answer drawn from the walk |
| Walker.Conclude | src/nspsl.c:190-209 | the ending, including the extra back-scan when only one label was tried, returns exactly the answer for the walk's stop |
| Labels.DotsBefore | src/nspsl.c:164-171 | the '.'s before position `n`, rightmost first: each lies before `n` and holds a '.', and the positions strictly decrease |
| Labels.DotsComplete | src/nspsl.c:164-171 | every '.' before position `n` is in that list, so the labels are exactly the text between consecutive '.'s |
| Labels.LabelBegin | src/nspsl.c:165-171 | where label `i` begins: at 0 or just after a '.'; any label but the rightmost begins inside the hostname with a '.' after it |
| Labels.Path | src/nspsl.c:164-188 | the node reached by matching labels 0 to i-1 from the root is -1 or a node of a well-formed subtree |
| Labels.Child | src/nspsl.c:173-178 | the child that label i matches under the node the path reached is -1 or a node of a well-formed subtree |
| Labels.PathPrefix | src/nspsl.c:176-178 | once a label matches nothing the path stays at -1: a node reached after i labels was reached after every shorter prefix of them |
| Labels.MatchedFrom | src/nspsl.c:164-188 | counting from a reached label on, the count found is reached by the path and the label after it, if any, matches nothing |
| Labels.Matched | src/nspsl.c:164-188 | the number of labels that match one after another from the root: every label before it matches, and the label with that number, if there is one, matches nothing |
| Labels.LabelAnswer | src/nspsl.c:139-210 | the reference answer stated from the labels alone (defined, not derived from the C code): NULL when every label matches; where label m begins when label m >= 1 is the first to match nothing; when label 0 matches nothing, where label 1 begins, or NULL for a single label; any offset it gives is a whole-label tail with a '.' still in it |
| Labels.LabelStartDots | src/nspsl.c:165-171 | proof step: the back-scan from `p` stops just after the nearest '.' at or before `p`, or at 0 |
| Labels.DotsTail | src/nspsl.c:185-187 | proof step: the '.'s left of the k-th '.' are the rest of the list after it |
| Labels.FirstLabel | src/nspsl.c:156-171 | the first back-scan, from the end less a trailing '.', finds where label 0 begins |
| Labels.NextLabelBegin | src/nspsl.c:185-187 | stepping two places left of where label i begins and scanning back finds where label i+1 begins, and label i+1 ends at the '.' before label i |
| Labels.PathNext | src/nspsl.c:173-176 | proof step: the next node of the path is what matchlabel returns for label i under the current node |
| Labels.PathStop | src/nspsl.c:176-178 | proof step: when label i matches nothing, the walk stops at label i, having tried i+1 labels |
| Labels.PathAbsorb | src/nspsl.c:180-183 | proof step: when the leftmost label matches too, the walk ends with every label matched |
| Labels.PathOn | src/nspsl.c:185-187 | proof step: when label i matches and is not the leftmost, the walk goes on with label i+1 from the node it matched |
| Labels.WalkPath | src/nspsl.c:164-188 | from label i on the path, the walk stops where the first failing label m begins, having tried m+1 labels, or absorbs the name when every label matches |
| Labels.WalkPathOn | src/nspsl.c:164-188 | proof step: the same, past a matched label that is not the leftmost |
| Labels.WalkFromRoot | src/nspsl.c:156-188 | the walk from the root stops where the first label that matches nothing begins, or absorbs the name when every label matches |
| Labels.WalkAnswer | src/nspsl.c:190-209 | the closing step turns that walk into the label answer |
| Labels.PublicSuffixLabels | src/nspsl.c:139-210 | for a usable hostname the answer is NULL when every label matches; where label m begins when label m >= 1 is the first to match nothing; when label 0 matches nothing, where label 1 begins, or NULL for a single label; other hostnames give NULL |
| Properties.LabelStartSame | src/nspsl.c:165-171 | label boundaries depend only on where the '.'s are |
| Properties.KeyFold | src/nspsl.c:78 | two strings with the same folded codes give the same key for every label |
| Properties.WalkLabelsSame | src/nspsl.c:164-188 | the walk down the tree is the same for two hostnames with the same '.'s and the same folded labels |
| Properties.PublicSuffixSame | src/nspsl.c:139-210 | the answer is the same for two hostnames with the same '.'s and the same folded labels |
| Properties.PublicSuffixFold | src/nspsl.c:78 | two hostnames whose C strings fold to the same codes get the same answer |
| Properties.CStringLower | src/nspsl.c:156 | cutting at the first NUL and lower-casing commute |
| Properties.PublicSuffixLower | src/nspsl.c:78 | the lookup ignores case: a hostname and its lower-cased form get the same offset |
| Properties.TrailingDotWalk | src/nspsl.c:157-178 | on a name ending in '.', the first label tried has length -1, and with no root wildcard the walk stops there |
| Properties.TrailingDot | src/nspsl.c:157-206 | a name ending in '.', under a root with no wildcard child, gets the start of its last real label, whose tail includes the trailing '.' |

## Left out

- The contents of `psl.inc` are not modelled: `stab`, `htable`, `pnodes`, `STAB_WILDCARD` and `STAB_EXCEPTION`. They are built offline. They enter as the parameter `t`, constrained by `HuffOk` (the code tree), `LabelDecodes` (each label decodes inside `stab`) and `SubtreeOk`/`TreeOk` (every node reachable from the root has its children inside the table). Nothing is demanded below a child whose match an exception annuls (`Matcher.Enterable`), because the walk never moves there. So the exception sentinel, which only appears as the sole child of such a node, need not have a label that decodes, just as the C code never decodes it (src/nspsl.c:113-117).
- Huffman.HuffCaseCmp: returns only whether the difference `ascii_to_lower(str[cnt]) - curh` is zero, not its sign or magnitude, because matchlabel only tests it against zero.
- The union of `pnodes` slots is two independent fields, `labelView` and `childView`. The C code reads a slot through the view its position calls for, and so does the model.
- The `label.len` bit-field is compared as an unbounded integer with the `int` length. The compiled tables keep label lengths in range.
- Huffman.HuffCaseCmp: follows an unsigned `char`, the character's code compared as a value from 0 up. With a signed `char`, an input byte of 0x80 or more is negative at src/nspsl.c:78 and never equals a decoded code, so a stored code of 128 or more could match in the model but not in C. A model `char` above 0xFF has no C counterpart at all, since a C `char` is one byte. On stored labels that are ASCII, as the public suffix list's punycode labels are, both readings agree.
- Addresses into the hostname are offsets: `elem_start`/`elem_end` are indices, and the returned address is `Some(offset)`. The C string is the prefix before the first NUL.
- `huffcasecmp` reads one byte ahead after the last bit of a label. `LabelDecodes` demands that the bit after each label lies inside `stab`, so that read stays in bounds.
- Fully qualified names are not shown to give the same answer as the name without the trailing '.'. The code does not do that; `Properties.TrailingDot` states what it does instead.
- The inner loops are separate methods (`WalkCode`, `NextBit`, `NextCode`, `OpenCursor`, `StrLen`, `ScanBack`, `NextLabel`, `WalkHostname`, `Conclude`). They keep the C code's tests, updates and exits, and `GetPublicSuffix` tests the first character before it measures the string, as the C code does. Statements that do not affect each other may sit in another order: `lab_count` is counted after the label is matched rather than just before.
- Concurrency is not modelled: the tables are read-only constants.
