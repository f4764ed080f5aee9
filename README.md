# Verified model of the InlineCode.h helpers and COM_Munge

This project models two small parts of the GoldSource `shellcode-svc-message` tool.

- **`Utils/InlineCode.h`** holds the freestanding string and lookup helpers the injected code uses instead of the C runtime and Win32:
  - `ZeroMem`, `StrICompW`, `StrPosW`, `StrLenW` and `AnsiToWide` walk NUL-terminated code-unit strings;
  - `GetModuleHandlePeb` finds a loaded module by name in the loader's in-load-order list;
  - `GetProcAddressPeb` then finds an export of that module by name. It uses the Export Name Pointer, Export Ordinal and Export Address tables of the module's PE export directory (the `.edata` section of the Microsoft PE/COFF format).
- **`Common/Encrypt.cpp`** holds `COM_Munge`, the GoldSource/Quake network-message obfuscation. It rewrites a buffer in place in 4-byte groups, using a sequence number and the 16-byte `mungify_table2`. It is called by `COM_MungeFile`, which munges a file from byte offset 8 with length `fSize - 8`. Only the `(fSize - 8) & ~3` bytes of its whole 4-byte groups are rewritten: the 1-3 trailing bytes keep their values, and a file of fewer than 12 bytes is left unchanged.

Modules:

- `Wrappers` (`wrappers.dfy`): the `Option` type, standing for a possibly-null pointer.
- `WideString` (`wide_string.dfy`): the string helpers.
  - A pointer to a string is the sequence of code units readable from it, and the string is the part before its first NUL.
  - `wchar_t` units are 0..0xFFFF. `char` units are MSVC's signed -128..127.
  - Every loop is a `while` over an index and is proved against a specification function (`Len`, `ICompare`, `OccursAt`, `Widen`). ZeroMem and AnsiToWide write into an `array`.
- `PebLookup` (`peb_lookup.dfy`): the two lookups, over an abstract `Process`.
  - The `Process` holds the PEB's image base and the cycle of loader records `(base, name)` that the do-while visits. `ring[0]` is the list head's successor, the first module, and the modules follow in load order. The last ring entry stands for the list head `&ldr->InLoadOrder` itself: the walk reads it as a record too, and its successor is `ring[0]` again.
  - It also holds, for each mapped base, the export directory as three sequences.
  - The do-while over `Flink` and the `for` loop over the name table are methods proved equal to the functions `ModuleHandle` and `ProcAddress`. Their contracts and the lemmas beside them state what the functions mean: first match wins, null on a miss, and case-insensitive names.
  - GetProcAddressPeb needs a well-formed export directory only for the module it resolves (`HandleMapped`), because that is the only directory it reads.
- `Munge` (`munge.dfy`): `COM_Munge` as a method that rewrites an `array<bv8>` in place, with nested loops.
  - Within one group the words are `bv32`, read and written little-endian.
  - The method is proved to produce `Munged`, a function on the byte sequence built from the per-group map `MungeWord`: `bswap(w ^ ~seq) ^ M_i ^ seq`.
  - Partner lemmas prove:
    - the per-group inverse;
    - the buffer-level inverse `Unmunged`;
    - the independence of groups;
    - that no byte outside the `len & ~3` munged bytes changes.

The munge is sometimes described as its own inverse; the code is not. Munging a group twice XORs in `bswap(M_i) ^ M_i`, which is not zero for `mungify_table2`. The model follows the code. `MungeTwiceTable2` and `MungeTwiceTable2Group3` exhibit concrete words that munging twice does not restore. `Unmunged` is the real inverse, and `UnmungeRoundTrip` proves it undoes `Munged` in both directions.

## Model

| member | source | states |
|---|---|---|
| WideString.ZeroMem | GoldSource/shellcode-svc-message/src/src/Utils/InlineCode.h:16-22 | bytes [0, count) of the buffer become 0, every other byte keeps its value; a count of 0 or less changes nothing |
| WideString.Len | GoldSource/shellcode-svc-message/src/src/Utils/InlineCode.h:89-92 | the length of a string is the index of its first NUL: that unit is NUL and none before it is |
| WideString.Fold | GoldSource/shellcode-svc-message/src/src/Utils/InlineCode.h:33-41 | a unit in 'a'..'z' XORed with 0x20 becomes the matching 'A'..'Z'; every other unit is left as it is; only NUL folds to NUL |
| WideString.CaseBit | GoldSource/shellcode-svc-message/src/src/Utils/InlineCode.h:34 | for 'a'..'z', XORing 0x20 out of the 16-bit unit subtracts 0x20 |
| WideString.StopIndex | GoldSource/shellcode-svc-message/src/src/Utils/InlineCode.h:29-48 | the comparison loop stops at the first offset where the folded units differ or the first string ends; before it the folded units agree and neither string has ended |
| WideString.ICompare | GoldSource/shellcode-svc-message/src/src/Utils/InlineCode.h:43-44 | the result is the difference of the folded units at the first offset where they differ or the first string ends: an offset with the folded units equal and no NUL before it |
| WideString.ICompareZeroIff | GoldSource/shellcode-svc-message/src/src/Utils/InlineCode.h:43-44 | the comparison result is 0 exactly when the two strings are equal after folding 'a'..'z', terminators included |
| WideString.ICompareAntisymmetric | GoldSource/shellcode-svc-message/src/src/Utils/InlineCode.h:43-44 | swapping the two strings negates the result |
| WideString.ICompareReflexive | GoldSource/shellcode-svc-message/src/src/Utils/InlineCode.h:43-44 | a string compares equal to itself |
| WideString.StrICompW | GoldSource/shellcode-svc-message/src/src/Utils/InlineCode.h:24-49 | the loop returns the difference of the folded units where the strings first differ or end, which is 0 exactly on equality ignoring ASCII case |
| WideString.StrPosW | GoldSource/shellcode-svc-message/src/src/Utils/InlineCode.h:51-83 | null when either argument is null or empty; otherwise the leftmost offset at which str2 occurs in str1, compared exactly, or null when it occurs nowhere |
| WideString.StrLenW | GoldSource/shellcode-svc-message/src/src/Utils/InlineCode.h:85-93 | returns the number of units before the first NUL |
| WideString.Widen | GoldSource/shellcode-svc-message/src/src/Utils/InlineCode.h:134 | assigning a signed char to wchar_t keeps 0..127 and sign-extends negative chars to c + 0x10000 in 0xFF80..0xFFFF (the value kept modulo 2^16); only NUL widens to NUL |
| WideString.WidenedContent | GoldSource/shellcode-svc-message/src/src/Utils/InlineCode.h:132-139 | the widened units followed by the terminator form a string whose content is exactly the widened units |
| WideString.AnsiToWide | GoldSource/shellcode-svc-message/src/src/Utils/InlineCode.h:130-140 | dest[0..n) receives the widened source units, dest[n] the terminator, n being the source length; the rest of dest is untouched, and dest then holds a string of the same length |
| PebLookup.Flink | GoldSource/shellcode-svc-message/src/src/Utils/InlineCode.h:124-125 | the successor of each record stays in the cycle, and the walk is back at its start exactly after the last record |
| PebLookup.ModuleMatches | GoldSource/shellcode-svc-message/src/src/Utils/InlineCode.h:116-120 | a record matches exactly when its base is non-null, its name is terminated and StrICompW of its name and the wanted name is 0 |
| PebLookup.FindModule | GoldSource/shellcode-svc-message/src/src/Utils/InlineCode.h:112-125 | the first record from k on with a non-null base whose name matches ignoring case, or the end of the list if none does |
| PebLookup.ModuleHandle | GoldSource/shellcode-svc-message/src/src/Utils/InlineCode.h:105-127 | a null or empty name yields the image base; otherwise null exactly when no loaded record matches, else the base of the first matching record in load order |
| PebLookup.GetModuleHandlePeb | GoldSource/shellcode-svc-message/src/src/Utils/InlineCode.h:95-128 | the do-while over Flink, from the list head's successor until it is back there, returns ModuleHandle |
| PebLookup.ModuleHandleIgnoresCase | GoldSource/shellcode-svc-message/src/src/Utils/InlineCode.h:120 | two module names equal up to ASCII case give the same handle |
| PebLookup.FindModuleIgnoresCase | GoldSource/shellcode-svc-message/src/src/Utils/InlineCode.h:112-125 | the module search from any record gives the same index for two names equal up to ASCII case |
| PebLookup.FindExport | GoldSource/shellcode-svc-message/src/src/Utils/InlineCode.h:157-175 | the first name index from k on whose widened name matches funcName ignoring case, or NumberOfNames if none does |
| PebLookup.ExportMatchesCompare | GoldSource/shellcode-svc-message/src/src/Utils/InlineCode.h:159-164 | the i-th export name matches exactly when StrICompW of that name, widened and terminated as in lcurName, and funcName is 0 |
| PebLookup.FirstExportFound | GoldSource/shellcode-svc-message/src/src/Utils/InlineCode.h:157-175 | the search from index 0 returns the smallest matching name index whenever one exists |
| PebLookup.AddressAdd | GoldSource/shellcode-svc-message/src/src/Utils/InlineCode.h:170 | `(int)base + offset` on the 32-bit target: the sum, wrapped around modulo 2^32 |
| PebLookup.ProcAddress | GoldSource/shellcode-svc-message/src/src/Utils/InlineCode.h:144-177 | null when the module is not found or no export name matches; otherwise base plus the address-table entry of the ordinal at the smallest matching name index; only the resolved module's directory must be well formed |
| PebLookup.GetProcAddressPeb | GoldSource/shellcode-svc-message/src/src/Utils/InlineCode.h:142-178 | the loop that widens each export name into the 512-unit buffer and compares it with StrICompW returns ProcAddress; it needs well-formed exports only in the module it resolves |
| PebLookup.ProcAddressIgnoresCase | GoldSource/shellcode-svc-message/src/src/Utils/InlineCode.h:144-164 | a module name and an export name that differ only in ASCII case resolve to the same module, whose directory is then also well formed, and to the same address |
| PebLookup.FindExportIgnoresCase | GoldSource/shellcode-svc-message/src/src/Utils/InlineCode.h:157-175 | the export search gives the same index for two function names equal up to ASCII case |
| Munge.ClearLow2 | GoldSource/shellcode-svc-message/src/src/Common/Encrypt.cpp:24 | `len & ~3` on a two's-complement int is the multiple of 4 at most 3 below len, for negative len too |
| Munge.CDiv | GoldSource/shellcode-svc-message/src/src/Common/Encrypt.cpp:25 | C's `/` truncates toward zero: for a >= 0 the quotient is the largest q with q * b <= a; for a < 0 it is the smallest q with a <= q * b, and it is at most 0 |
| Munge.GroupLimit | GoldSource/shellcode-svc-message/src/src/Common/Encrypt.cpp:24-25 | mungelen is len / 4 rounded down for len >= 0, and negative for every negative len |
| Munge.Groups | GoldSource/shellcode-svc-message/src/src/Common/Encrypt.cpp:24-27 | the number of 4-byte groups the loop munges: none when len < 4, negative len included; otherwise the largest g with 4g <= len |
| Munge.GroupCount | GoldSource/shellcode-svc-message/src/src/Common/Encrypt.cpp:24-25 | `(len & ~3) / 4`, with C's truncating division, is positive exactly when there are groups to munge, and is then their number |
| Munge.TableIndex | GoldSource/shellcode-svc-message/src/src/Common/Encrypt.cpp:37 | `(i + j) & 0x0f` lies in 0..15 and is congruent to i + j modulo 16, so only the 16 table entries are read |
| Munge.MaskByte | GoldSource/shellcode-svc-message/src/src/Common/Encrypt.cpp:37 | mask byte j of group i is 0xa5, 0xa7, 0xaf or 0xbf (for j = 0..3) ORed with table[(i + j) & 0x0f] |
| Munge.MaskedUpToXor | GoldSource/shellcode-svc-message/src/src/Common/Encrypt.cpp:34-38 | XORing the mask bytes into the bytes of c one at a time is XORing the whole mask word M_i into c |
| Munge.ByteOfLoadLE | GoldSource/shellcode-svc-message/src/src/Common/Encrypt.cpp:29-30 | the int read from four bytes has those bytes as its bytes, lowest first in memory |
| Munge.LoadLEByteOf | GoldSource/shellcode-svc-message/src/src/Common/Encrypt.cpp:41 | storing a word's bytes and reading them back gives the word |
| Munge.ByteSwap | GoldSource/shellcode-svc-message/src/src/Common/Encrypt.cpp:32 | _byteswap_ulong moves byte k of its argument to byte 3 - k |
| Munge.UnmungeWithMunge | GoldSource/shellcode-svc-message/src/src/Common/Encrypt.cpp:30-41 | whatever the two keys, undoing the outer XOR, the swap and the inner XOR in reverse order restores the word |
| Munge.MungeWithUnmunge | GoldSource/shellcode-svc-message/src/src/Common/Encrypt.cpp:30-41 | whatever the two keys, the group transformation undoes its inverse |
| Munge.MungeWord | GoldSource/shellcode-svc-message/src/src/Common/Encrypt.cpp:30-41 | the per-group map bswap(w ^ ~seq) ^ (M_i ^ seq), a definition: MungeGroup proves that the source's step-by-step loop body, with its byte-at-a-time mask, computes it, and MungeWordInverse and MungeWordInjective prove it invertible |
| Munge.MungeWordInverse | GoldSource/shellcode-svc-message/src/src/Common/Encrypt.cpp:30-41 | for a fixed group, sequence and table, the per-group map is a bijection on 32-bit words with UnmungeWord as its inverse on both sides |
| Munge.MungeWordInjective | GoldSource/shellcode-svc-message/src/src/Common/Encrypt.cpp:30-41 | two words of one group munge to the same word exactly when they are equal |
| Munge.MungeTwiceTable2 | GoldSource/shellcode-svc-message/src/src/Common/Encrypt.cpp:7-41 | with mungify_table2, munging the zero word of group 0 twice under sequence 0 gives 0x5A18185A: the munge is not its own inverse |
| Munge.MungeTwiceTable2Group3 | GoldSource/shellcode-svc-message/src/src/Common/Encrypt.cpp:7-41 | with mungify_table2, munging 0x12345678 in group 3 twice under sequence 0xDEADBEEF does not restore it |
| Munge.MungeGroup | GoldSource/shellcode-svc-message/src/src/Common/Encrypt.cpp:31-40 | the loop body on the word of group i (XOR ~seq, byte swap, mask bytes XORed in by the inner loop, XOR seq) yields MungeWord, bswap(w ^ ~seq) ^ M_i ^ seq |
| Munge.LoadWord | GoldSource/shellcode-svc-message/src/src/Common/Encrypt.cpp:29-30 | `c = *pc` reads the four bytes from the group start as a little-endian int |
| Munge.StoreWord | GoldSource/shellcode-svc-message/src/src/Common/Encrypt.cpp:41 | `*pc = c` writes the four bytes of c from the group start, lowest first, and nothing else |
| Munge.COM_Munge | GoldSource/shellcode-svc-message/src/src/Common/Encrypt.cpp:15-43 | the nested loops leave the buffer equal to Munged: group i rewritten with MungeWord(word, i, seq, table) for each of the Groups(len) groups |
| Munge.Munged | GoldSource/shellcode-svc-message/src/src/Common/Encrypt.cpp:24-27 | the buffer keeps its length, and one with len < 4 (negative len included) is left unchanged |
| Munge.MungedGroup | GoldSource/shellcode-svc-message/src/src/Common/Encrypt.cpp:27-42 | groups are independent: output group g is MungeWord of input group g, g, the sequence and the table alone |
| Munge.MungeOnlyGroups | GoldSource/shellcode-svc-message/src/src/Common/Encrypt.cpp:24-27 | only the len & ~3 bytes from the start are rewritten: bytes before it and the 1-3 trailing bytes keep their values |
| Munge.MungedUpToRoundTrip | GoldSource/shellcode-svc-message/src/src/Common/Encrypt.cpp:27-42 | rewriting n groups and then rewriting them back with the inverse map restores every byte of the buffer |
| Munge.UnmungeRoundTrip | GoldSource/shellcode-svc-message/src/src/Common/Encrypt.cpp:15-43 | the buffer-level munge is a bijection: Unmunged undoes Munged and Munged undoes Unmunged |
| Munge.MungeFileBuffer | GoldSource/shellcode-svc-message/src/src/Common/Encrypt.cpp:57 | COM_MungeFile's in-memory step munges the buffer from offset 8 with length fSize - 8 and mungify_table2, leaving the first 8 bytes as they were |

## Left out

- The `fs:[0x30]` read of the PEB and the walk from a mapped image's DOS and NT headers to its export directory (InlineCode.h:99-103, 149-155) are inline assembly and raw memory, so they are not modelled. The `Process` value stands for what they read.
- `ValidLoader` is the model's condition on the loader list. The list must be a non-empty cycle whose last entry is the list head. Every record with a non-null base must have a NUL-terminated name, the head's pseudo-record included. The head's "base" is really TPebLdrData's `EntryInProgress` field (Common/ntdll.h:27), which the model treats as an ordinary base.
- Each record's `BaseDllName` is a counted `TUnicodeString` (Common/ntdll.h:6-10), but its `Buffer` is read as a NUL-terminated string, as StrICompW reads it; `Length` and `MaximumLength` are not modelled.
- `HandleMapped` and `ValidExports` are the model's conditions on the resolved module's image. Each of its export names must be terminated and shorter than the 512-unit `lcurName` buffer, and each ordinal must index the address table. No other image is constrained.
- GetProcAddressPeb: the case where an export name of the resolved module does not fit `lcurName` (a stack overflow in the source) is excluded by `ValidExports`, not modelled.
- StrPosW: the result is an offset into str1 rather than a pointer.
- AddressAdd: the source reads the address-table entry through an `int *` as a signed int, so `(int)base + offset` is a signed addition that MSVC wraps. The model deliberately reinterprets the entry as an unsigned 32-bit RVA and wraps the sum modulo 2^32, which gives the same bit pattern.
- COM_Munge: the pointer `data` is an array plus a start offset (`pBuf + 8` is offset 8). The int `seq` is used only bitwise, so it is passed as its 32-bit pattern (`Bits`). The table is any sequence of at least 16 bytes, as the index `(i + j) & 0x0f` reads only those.
- COM_Munge: the unaligned `int *` access and strict aliasing are not modelled. The word is read and written as four little-endian bytes.
- MungeTwiceTable2: munging twice is stated not to be the identity only through concrete words, not through the general formula `w ^ bswap(M_i) ^ M_i` for every word.
- MungeFileBuffer: COM_MungeFile's `fopen_s`, `fsize`, `malloc`, `fread`, `fwrite` and `free` are file I/O and are not modelled. The model starts from the file's bytes in a buffer. A file shorter than 8 bytes gives a negative length and is left unchanged.
- Utils/File.h, Common/ntdll.h and Common/Types.h are not part of this model: they declare stdio wrappers and Windows structures only.
- The Win32 function-pointer typedefs of InlineCode.h (lines 180 on) are declarations only.
- The exploit generators (LumpSploit, BmpSploit, SvcSploit) are not modelled. Each fills a buffer with NOPs, plants a short jump and return addresses at fixed, build-specific offsets and copies compiled machine code in, so they have no behaviour to specify.
