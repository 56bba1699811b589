# camctrl.rb, modelled in Dafny

camctrl.rb is a Tk front end for `uvcdynctrl`, the command-line utility that
drives UVC webcams. At start-up it asks the utility for the camera's
controls (`uvcdynctrl -c -v`) and reads the listing line by line. Each
control becomes a `Control` object with a name, a type, a range or a set of
choices, and a default. `save_control` files each object in one of four
tables: motors, sliders, toggles and choices. The window's buttons, sliders
and combo boxes then send `uvcdynctrl -s '<control>' -- <value>` commands.

This project models the part that does not depend on Tk:

- **Values text.** `Control#set_values` reads the text after `Values :` according to the control's type.
- **Filing.** `save_control` files a finished control in one of the four tables.
- **Discovery loop.** `parse_controls` runs over the utility's listing, given as a sequence of lines.
- **Commands.** `send_command` and the callbacks that send fixed or user-chosen values are modelled with a trace.

The files:

| file | module | what it holds |
|---|---|---|
| options.dfy | `Options` | `Option`, for Ruby's `nil` |
| text.dfy | `Text` | the regex character classes `\s`, `\d`, `\w`; greedy runs; substring search (`=~` with a plain pattern); decimal printing and reading |
| ordered_hash.dfy | `OrderedHash` | a Ruby `Hash` of strings as an insertion-ordered list: `[]`, `[]=` and `key` |
| patterns.dfy | `Patterns` | one function per regular expression, with the greedy and backtracking behaviour worked out by hand; the classification of a listing line |
| control.dfy | `ControlModel` | the attributes of a control as a value; `set_values` as a function (`ApplyValues`) and as a method of class `Control`, proved against that function |
| discovery.dfy | `Discovery` | `save_control` and the loop of `parse_controls` as functions on values (`Save`, `Step`, `Run`, `Discover`); an independent reading of the listing as blocks, and proofs that the loop agrees with it |
| camera.dfy | `Camera` | class `CamCtrl` with the four tables of `Control` objects, the device, standard output and the command trace; its methods are proved against the `Discovery` functions |

Some conventions used throughout:

- Standard output (`puts`) is the `console` field, a sequence of lines.
- What `send_command` does is recorded in the `trace` field, as a `Logged` event (the line written to the message area) followed by an `Executed` event (the shell command).
- Range bounds are what the pattern `(\d+)` captures: digit runs, read as natural numbers.
- A default is the integer its token starts with: an optional sign, then digits.

## Model

| member | source | states |
|---|---|---|
| Text.Contains | camctrl.rb:30-49 | `=~` with a metacharacter-free pattern holds exactly when the pattern occurs somewhere in the text |
| Text.LeadingInt | camctrl.rb:192 | definition: the integer a Default token starts with; Text.LeadingIntOfIntToString states the round trip |
| Text.LeadingIntOfIntToString | camctrl.rb:191-192 | reading the leading number of a printed integer gives that integer back |
| OrderedHash.Get | camctrl.rb:123 | `h[k]` is `nil` exactly when no entry has key `k`, and otherwise the value of an entry with that key |
| OrderedHash.GetUnique | camctrl.rb:123 | with unique keys, looking up the key of any entry gives that entry's value |
| OrderedHash.Put | camctrl.rb:42 | `h[k] = v` keeps every key at its position, overwrites the entry of `k` when it exists and appends `(k, v)` otherwise |
| OrderedHash.GetPut | camctrl.rb:42 | after `h[k] = v`, looking up `k` gives `v`, every other key gives what it gave before, and keys stay unique |
| OrderedHash.KeyOf | camctrl.rb:123 | `key(v)` is `nil` exactly when no entry has value `v`, and otherwise the key of the first such entry in insertion order |
| OrderedHash.KeyOfThenGet | camctrl.rb:123 | the key the reverse lookup finds stores the label that was looked up |
| OrderedHash.GetThenKeyOf | camctrl.rb:123 | every stored label is found by the reverse lookup; when labels are distinct it finds exactly the key that stores it |
| Patterns.HeaderDevice | camctrl.rb:172-173 | the header pattern matches exactly when `Listing available ` occurs and is followed later by ` video` and a digit; the device is `video` followed by the whole digit run after the line's last ` video` that a digit follows, where the greedy `.*` stops |
| Patterns.HeaderOfListing | camctrl.rb:172-173 | a header naming ` video<digits>`, followed by blank-free text that does not continue the number, gives exactly `video<digits>` |
| Patterns.FirstCameraHeader | camctrl.rb:172-173 | `Listing available controls for device video0:` names the device `video0` |
| Patterns.ControlName | camctrl.rb:179-181 | a line starts a control exactly when it is non-empty and colon-free; the name is the line without its leading blanks, or its last blank when it is all blanks |
| Patterns.AfterColonOf | camctrl.rb:182-192 | a line of blanks, the field word, blanks (at least one where the pattern says `\s+`) and a colon is accepted, and the rest after the colon is what the field reads |
| Patterns.TypeWord | camctrl.rb:182-183 | a Type capture comes from a line of optional blanks, `Type`, blanks, a colon and blanks, and is the whole run of word characters that follows them |
| Patterns.TypeWordOf | camctrl.rb:182-183 | every line of that shape matches and gives that run of word characters |
| Patterns.IsFlagsLine | camctrl.rb:185-186 | definition: `Flags`, blanks and a colon; Patterns.AfterColonOf states which lines match |
| Patterns.BracketedText | camctrl.rb:187-190 | the Values capture ends at the last position from which a blank run, the closing character and a comma follow with no excluded character before it; it starts after the leading blanks, giving one back only when nothing else is left; it is found exactly when some position can end it |
| Patterns.BracketedTextOf | camctrl.rb:187-190 | a capture followed by one blank, the closing character and a comma, and preceded only by blanks, is read back whole |
| Patterns.ValuesText | camctrl.rb:187-190 | a Values capture comes from a line of optional blanks, `Values`, a colon, blanks and the opening character, and is what the bracket pattern captures from the text after that character |
| Patterns.ValuesTextOf | camctrl.rb:187-190 | every line of that shape is read by the bracket pattern applied after its opening character |
| Patterns.ValuesTextOfBody | camctrl.rb:187-190 | such a line whose capture is followed by one blank, the closing character and a comma gives exactly that capture |
| Patterns.BracketValues | camctrl.rb:187 | definition: the Values pattern with brackets; Patterns.RangeValuesLine states what it reads |
| Patterns.BraceValues | camctrl.rb:189 | definition: the Values pattern with braces; Patterns.ChoiceValuesLine states what it reads |
| Patterns.RangeValuesLine | camctrl.rb:187-188 | a Values line listing `<min> .. <max>, step size: <step>` in brackets, as the utility prints it, captures that text, and the range pattern reads the three numbers back |
| Patterns.BraceValuesOfChoices | camctrl.rb:189-190 | a Values line listing `'label'[value]` tokens in braces, none holding `{`, captures exactly the listing |
| Patterns.ChoiceValuesLine | camctrl.rb:189-190 | scanning what such a line captures gives back exactly the listed tokens, in order |
| Patterns.DefaultToken | camctrl.rb:191-192 | a Default capture comes from a line of optional blanks, `Default`, optional blanks, a colon and optional blanks, and is the whole blank-free run that follows them |
| Patterns.DefaultTokenOf | camctrl.rb:191-192 | every line of that shape matches and gives that blank-free run |
| Patterns.Classify | camctrl.rb:172-193 | the patterns are tried in the parser's order: header, colon-free line, Type, Flags, Values with brackets, Values with braces, Default; the first that matches decides the kind, and the kind carries that pattern's capture (the device, the name, the type word, the Values text, the Default token); a line no pattern matches is skipped |
| Patterns.FieldPatternsDisjoint | camctrl.rb:182-192 | no line matches two of the Type, Flags, Values and Default patterns, nor both Values patterns, so their order matters only after the header and control-name patterns |
| Patterns.ColonLineStart | camctrl.rb:179-192 | a field line holds a colon, so it never starts a control, and its first non-blank is the field word's first letter |
| Patterns.TypeLineKind | camctrl.rb:172-184 | a line of the Type shape that is no header is classified as a Type line carrying its word |
| Patterns.RangeLineKind | camctrl.rb:172-188 | a Values line listing a range in brackets that is no header is classified as a Values line carrying the range's text |
| Patterns.ValuesLineOpen | camctrl.rb:187-190 | a Values line opening with a brace is never read by the bracket pattern, and one opening with a bracket never by the brace pattern |
| Patterns.BraceLineKind | camctrl.rb:172-190 | a Values line opening with a brace that the brace pattern reads, and that is no header, is classified as a Values line carrying that capture |
| Patterns.ChoiceLineKind | camctrl.rb:172-190 | a Values line listing `'label'[value]` tokens in braces that is no header is classified as a Values line carrying the listing |
| Patterns.DefaultLineKind | camctrl.rb:172-192 | a line of the Default shape that is no header is classified as a Default line carrying its token |
| Patterns.RangeMatch | camctrl.rb:32 | definition: the leftmost match of the range pattern; Patterns.RangeStartsAt, Patterns.RangeOfRangeText and Patterns.MinusSignIgnored state what it reads |
| Patterns.RangeStartsAt | camctrl.rb:32 | the search table marks exactly the positions where the range pattern matches, so the first mark is Ruby's leftmost match |
| Patterns.RangeOfRangeText | camctrl.rb:32-35 | the range pattern reads `<min> .. <max>, step size: <step>` back as those three numbers |
| Patterns.MinusSignIgnored | camctrl.rb:32 | a minus sign in front of the text changes nothing: the captures are digit runs only |
| Patterns.SignedRangeText | camctrl.rb:32-35 | a range printed with a minus sign before its minimum reads back with the minimum's magnitude |
| Patterns.NegativeMinimumRead | camctrl.rb:32-35 | `-500 .. 500, step size: 1` gives minimum 500, maximum 500 and step 1 |
| Patterns.Tokens | camctrl.rb:41 | definition: the scan for `'label'[value]` tokens; Patterns.TokensWellFormed and Patterns.TokensOfChoicesText state what it finds |
| Patterns.TokensWellFormed | camctrl.rb:41 | every token the scan finds has a non-empty quote-free label and a non-empty bracket-free value |
| Patterns.TokensOfChoicesText | camctrl.rb:41 | scanning a list of `'label'[value]` tokens separated by `, ` gives back exactly those tokens, in order |
| ControlModel.NewControl | camctrl.rb:21-23 | definition: a new control has its name and every other attribute `nil`; ControlModel.UntypedValues and Discovery.UntypedGroup state what follows for a control that never gets a Type line |
| ControlModel.UntypedValues | camctrl.rb:30-50 | a Values line before any Type line leaves the control unchanged and prints the unrecognised-type diagnostic with an empty type |
| ControlModel.ValuesRuleOf | camctrl.rb:30-49 | definition: the branch `case @type` takes; ControlModel.ValuesRules states the order of the tests |
| ControlModel.ChoicesOf | camctrl.rb:40-43 | definition: the hash the scan loop builds; ControlModel.ChoicesOfKeys and ControlModel.ChoicesOfGet state its contents |
| ControlModel.ApplyValues | camctrl.rb:29-51 | `set_values` never changes the name, the type or the default |
| ControlModel.ApplyRange | camctrl.rb:31-38 | a `Dword` control takes min, max and step from the leftmost range match and changes nothing else; without a match it is unchanged and the unrecognised-format diagnostic is printed |
| ControlModel.ApplyRangeText | camctrl.rb:31-35 | a `Dword` control given the text of a range gets exactly that range and prints nothing |
| ControlModel.ChoicesOfKeys | camctrl.rb:40-43 | the rebuilt hash has unique keys, and its keys are exactly the values of the scanned tokens |
| ControlModel.ChoicesOfGet | camctrl.rb:40-43 | each value maps to the label of the last token that carries it: later duplicates overwrite earlier ones |
| ControlModel.ApplyChoice | camctrl.rb:39-43 | a `Choice` control gets a fresh hash whose keys are exactly the scanned values, each mapped to its last label; no other attribute changes and nothing is printed |
| ControlModel.ApplyChoicesText | camctrl.rb:39-43 | a `Choice` control given a listing of tokens with distinct values maps each value to its label |
| ControlModel.ValuesRules | camctrl.rb:30-49 | `case @type` tries `Dword`, then `Choice`, then `Button`, then `Boolean`: each branch is taken exactly when the type contains its word and none of the earlier ones, and the `else` branch exactly when it contains none of the four |
| ControlModel.ApplyOther | camctrl.rb:44-50 | `Button` and `Boolean` controls are unchanged and nothing is printed; any other or a missing type leaves the control unchanged and prints a diagnostic naming the type |
| ControlModel.Control.constructor | camctrl.rb:21-23 | `Control.new(name)` holds the attributes of `NewControl(name)` |
| ControlModel.Control.SetValues | camctrl.rb:29-51 | the method leaves the attributes `ApplyValues` gives and returns the diagnostic it prints |
| ControlModel.Control.SetRange | camctrl.rb:33-35 | min, max and step take the three captures; nothing else changes |
| ControlModel.Control.SetChoices | camctrl.rb:40-43 | the store loop leaves `choices` equal to the hash built from all tokens in order; nothing else changes |
| Discovery.GroupOf | camctrl.rb:134-150 | definition: the table `save_control` picks; Discovery.GroupRules states the rules |
| Discovery.GroupRules | camctrl.rb:134-150 | a name containing `Pan` or `Tilt` is a motor whatever its type; otherwise the first of Dword (slider), Button (reported), Boolean (toggle), Choice (choice) the type contains decides; any other or a missing type is reported |
| Discovery.UntypedGroup | camctrl.rb:134-150 | a control that never got a Type line is filed as a motor when its name says so, and otherwise reported as unrecognised with an empty type |
| Discovery.Save | camctrl.rb:132-152 | definition: `save_control` on the tables as values; Discovery.SaveChanges and Discovery.SaveGrouped state what it changes |
| Discovery.SaveChanges | camctrl.rb:132-152 | saving changes only the table of the control's group, and only at the control's name; a control of no group changes nothing and prints its diagnostic |
| Discovery.SaveGrouped | camctrl.rb:132-152 | saving keeps every entry keyed by its own name and filed in the table of its own group |
| Discovery.SaveAllLookup | camctrl.rb:132-152 | after saving a sequence of controls, a table holds a name exactly when some control of that name and group was saved, and then holds the last such control |
| Discovery.SaveAllGrouped | camctrl.rb:132-152 | saving any sequence of controls into empty tables leaves every entry under its own name and group |
| Discovery.Apply | camctrl.rb:182-193 | a Type line sets only the type, to its word; a Default line sets only the default, to the number its token starts with; a Values line does what `set_values` does; no line renames the control, and Flags, header and unmatched lines leave it alone |
| Discovery.Flush | camctrl.rb:180 | definition: `save_control(current_control)`, on each control line and once more after the loop; Discovery.TracksStart states what it saves |
| Discovery.Step | camctrl.rb:169-193 | definition: one pass of the loop; Discovery.StepFrame and Discovery.RunBlocks state what it does |
| Discovery.StepFrame | camctrl.rb:172-193 | only a control line saves anything; a header sets the device and leaves the current control alone; Flags and unmatched lines change nothing; Type, Values and Default lines keep the current control's name |
| Discovery.Classified | camctrl.rb:169-170 | definition: the listing classified line by line, in order, by Patterns.Classify |
| Discovery.HasStartAt | camctrl.rb:179-181 | a listing has a current control exactly when some line of it starts a control |
| Discovery.WellFormedAt | camctrl.rb:182-193 | a listing can be read without a `nil` receiver exactly when every Type, Values or Default line comes after some control line |
| Discovery.WellFormedPrefix | camctrl.rb:169 | every prefix of a readable listing is readable |
| Discovery.Run | camctrl.rb:167-194 | after the loop there is a current control exactly when some line started one |
| Discovery.RunNext | camctrl.rb:169-194 | one more line of a readable listing can be read, and the run advances by exactly one step |
| Discovery.BuildType | camctrl.rb:182-184 | a control's type is the word of the last Type line after its control line, and `nil` exactly when there is none |
| Discovery.BuildDefault | camctrl.rb:191-192 | a control's default is the number leading the token of the last Default line after its control line, and `nil` exactly when there is none |
| Discovery.BuildUnvalued | camctrl.rb:187-190 | a control with no Values line after its control line keeps min, max, step and choices `nil` |
| Discovery.BlockNames | camctrl.rb:179-181 | there is one block per control line, named as that line names it, in order |
| Discovery.TracksStart | camctrl.rb:179-181 | a control line saves the control of the open block and opens a new block |
| Discovery.TracksBody | camctrl.rb:182-193 | any other line extends the open block, if there is one, and the current control stays the one the block builds |
| Discovery.RunBlocks | camctrl.rb:169-194 | the loop keeps the saved controls equal to the finished blocks and the current control equal to the open block |
| Discovery.Discover | camctrl.rb:157-196 | definition: the loop and the final `save_control`; Discovery.DiscoverSaved, Discovery.DiscoverTables and Discovery.DiscoverDevice state the outcome |
| Discovery.DiscoverSaved | camctrl.rb:179-195 | `save_control` receives exactly one control per control line, in order, named by that line and built from the lines after it |
| Discovery.RunTables | camctrl.rb:169-194 | the tables are always what saving the controls handed over so far, in order, gives |
| Discovery.DiscoverTables | camctrl.rb:157-196 | after `parse_controls`, each table entry is keyed by its name and filed by its group, and it is the last control of that name and group |
| Discovery.RunDevice | camctrl.rb:172-176 | the loop keeps `@device` equal to the device of the last header line so far |
| Discovery.DiscoverDevice | camctrl.rb:165-176 | `@device` ends as the device of the last header line, or `''` when there is none |
| Camera.CommandLine | camctrl.rb:80 | definition: the command text; Camera.ParseCommandOfCommand and Camera.CommandLineInjective state that it can be read back |
| Camera.ParseCommandLine | camctrl.rb:80 | a command read back into a name and a value rebuilds to exactly that command, and the name holds no quote |
| Camera.ParseCommandOfCommand | camctrl.rb:80 | the command built from a quote-free control name and a value reads back as that name and value |
| Camera.CommandLineInjective | camctrl.rb:80 | two commands for quote-free names are equal only when the names and the values are |
| Camera.Sent | camctrl.rb:79-83 | a send logs `-I- ` followed by the command it then executes; for a quote-free control name that command reads back as exactly the name and the value |
| Camera.MotorMoves | camctrl.rb:86-103 | the motor buttons address controls `save_control` files as motors; opposite buttons move the same control by opposite offsets; each offset is read back from its command |
| Camera.CamCtrl.SendCommand | camctrl.rb:79-83 | the trace gains the log line and then the execution of the command, and nothing else |
| Camera.CamCtrl.Move | camctrl.rb:86-103 | a motor button sends its control with its printed offset |
| Camera.CamCtrl.TiltUp | camctrl.rb:86-88 | sends `Tilt (relative)` with -500 |
| Camera.CamCtrl.TiltDown | camctrl.rb:91-93 | sends `Tilt (relative)` with 500 |
| Camera.CamCtrl.PanLeft | camctrl.rb:96-98 | sends `Pan (relative)` with -700 |
| Camera.CamCtrl.PanRight | camctrl.rb:101-103 | sends `Pan (relative)` with 700 |
| Camera.CamCtrl.ResetToOrigin | camctrl.rb:106-109 | sends exactly two commands, `Pan Reset` 0 and then `Tilt Reset` 0 |
| Camera.CamCtrl.ToggleButton | camctrl.rb:112-114 | sends the button's value unchanged |
| Camera.CamCtrl.SlidingBar | camctrl.rb:117-119 | sends the slider's position as a printed integer |
| Camera.CamCtrl.ComboBox | camctrl.rb:122-124 | sends the first value, in insertion order, whose label is the selected entry (with unique keys that value maps back to the entry); sends the empty text when no value has that label |
| Camera.CamCtrl.SaveControl | camctrl.rb:132-152 | a `nil` control changes nothing; otherwise the tables become what `Save` gives and its diagnostic, if any, is printed |
| Camera.CamCtrl.FileControl | camctrl.rb:134-147 | the control object is stored under its name in the table of its group, and nothing else changes |
| Camera.CamCtrl.BeginParse | camctrl.rb:158-167 | the message is printed, the four tables are empty, the device is `''` and there is no current control |
| Camera.CamCtrl.ReadLine | camctrl.rb:169-193 | one pass of the loop leaves the objects in the state `Step` gives |
| Camera.CamCtrl.ReadHeader | camctrl.rb:172-176 | a header sets and prints the device, and changes nothing else |
| Camera.CamCtrl.ReadControlStart | camctrl.rb:179-181 | a control line saves the current control and starts a fresh one named by the line |
| Camera.CamCtrl.ReadField | camctrl.rb:182-193 | a Type, Values or Default line changes only the current control and what is printed |
| Camera.CamCtrl.FlushCurrent | camctrl.rb:195 | the final `save_control` leaves the tables and output `Flush` gives |
| Camera.CamCtrl.ParseControls | camctrl.rb:157-196 | the tables, the device and what is printed end up as `Discover` says for the classified listing |
| Camera.CamCtrl.ReadListing | camctrl.rb:169-195 | the loop over the matched lines, with the final `save_control`: the tables, the device and what is printed end up as `Discover` says, and nothing is run |
| Camera.CamCtrl.ReadLines | camctrl.rb:169-194 | the loop leaves the objects in the state `Run` gives for the whole listing |
| Camera.CamCtrl.ReadNext | camctrl.rb:169-193 | one iteration advances the objects from the run over the lines before it to the run that includes it |
| Camera.CamCtrl.Initialize | camctrl.rb:58-74 | without the utility, the error is printed and the status is 1, with the tables untouched; otherwise the controls are discovered from the listing |

## Left out

- The Tk window: `create_gui`, the labels, sliders, check buttons and combo boxes, and `Tk.mainloop` (camctrl.rb:222-380, 396-397). This is presentation only.
- `log_info` and `log_error` write to a text widget. The model records the `log_info` line as a `Logged` event in the trace instead.
- The `$vars` Tk variables and the callback dispatch through `public_send` (camctrl.rb:64, 390-392). The callbacks take the variable's value as a parameter.
- Running programs. The backtick at camctrl.rb:82 becomes an `Executed` event. The listing read at camctrl.rb:169 is a parameter: a sequence of lines with their line terminators already removed (`chomp!`).
- The `File.executable?` probe at camctrl.rb:68 is a boolean parameter. `exit 1` is the returned status `Some(1)`.
- Floating point. `to_f` on the range captures gives their digit runs as natural numbers. `to_f` on the default token gives the integer its token starts with (optional sign, digits). The fraction and exponent are dropped.
- `value.to_i` in `sliding_bar` is done by the caller: `SlidingBar` takes the integer.
- Ruby's regular expression engine in general. Each pattern of the file is written out by hand with the match it gives, including the greedy runs and the backtracking they imply.
- The brace form of the Values pattern excludes `{` from its capture, not `}`. It is modelled as written.
- `Flags` lines are matched and skipped; the `flags` attribute is never set, so it is not part of `ControlInfo`.
- Discovery.Step: a Type, Values or Default line arriving before any control line makes Ruby raise `NoMethodError` on `nil`. The model makes this a precondition (`WellFormed`, checked with `WellFormedAt`) instead of modelling the exception.
- Camera.CamCtrl.ComboBox: Ruby raises `NoMethodError` when the box is not a choice control or has no choices. The model requires both instead.
- A range printed with a minus sign reads as its magnitude: `-500 .. 500, step size: 1` gives minimum 500, because the captures are digit runs only (`Patterns.NegativeMinimumRead`).
- A control whose name contains `Pan` or `Tilt` is filed as a motor whatever its type, an unrecognised or missing type included (`Discovery.GroupRules`).
